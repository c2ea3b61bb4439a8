/**
 * One row of the dashboard's data frame: the columns the load query
 * selects (a `data` row left-joined with its `alarm` band), after the date
 * column has been converted to a timestamp. Text columns may be NULL; the
 * query keeps only rows whose `value` is not NULL.
 */
module Readings {

  import opened Wrappers
  import opened Timestamps

  datatype Reading = Reading(
    date: Timestamp,
    equipmentName: Option<string>,
    pointMeasurement: Option<string>,
    value: real,
    key: Option<string>,
    status: Option<string>,
    note: Option<string>,
    equipmentTagId: Option<string>,
    technology: Option<string>,
    component: Option<string>,
    unit: Option<string>,
    alarmStandard: Option<string>,
    parameter: Option<string>,
    excellent: Option<string>,
    acceptable: Option<string>,
    requiresEvaluation: Option<string>,
    unacceptable: Option<string>,
    alSet: Option<string>,
    loadKw: Option<string>)

  /** A displayed table cell. */
  datatype Cell = Null | Text(text: string) | Number(number: real) | Time(time: Timestamp)

  /** The columns of the plotted frame: those the query selects, and the added legend. */
  datatype Column =
    | Date | EquipmentName | PointMeasurement | Value | Key | StatusColumn | Note
    | EquipmentTagId | Technology | ComponentColumn | Unit | AlarmStandard | Parameter
    | ExcellentBand | AcceptableBand | RequiresEvaluationBand | UnacceptableBand | AlSet | LoadKw
    | LegendColumn
  {
    /** The column's name in the frame. */
    function Name(): string {
      match this
      case Date => "date"
      case EquipmentName => "equipment_name"
      case PointMeasurement => "point_measurement"
      case Value => "value"
      case Key => "key"
      case StatusColumn => "status"
      case Note => "note"
      case EquipmentTagId => "equipment_tag_id"
      case Technology => "technology"
      case ComponentColumn => "component"
      case Unit => "unit"
      case AlarmStandard => "alarm_standard"
      case Parameter => "parameter"
      case ExcellentBand => "excellent"
      case AcceptableBand => "acceptable"
      case RequiresEvaluationBand => "requires_evaluation"
      case UnacceptableBand => "unacceptable"
      case AlSet => "al_set"
      case LoadKw => "load_kw"
      case LegendColumn => "legend"
    }
  }

  /** The columns of the loaded frame, in the order the query selects them. */
  const QUERY_COLUMNS: seq<Column> := [
    Date, EquipmentName, PointMeasurement, Value, Key, StatusColumn, Note,
    EquipmentTagId, Technology, ComponentColumn, Unit, AlarmStandard, Parameter,
    ExcellentBand, AcceptableBand, RequiresEvaluationBand, UnacceptableBand, AlSet, LoadKw]

  function TextCell(v: Option<string>): (c: Cell)
    ensures c == Null <==> v.None?
  {
    match v
    case None => Null
    case Some(s) => Text(s)
  }

  /** The cell a row holds under a column of the loaded frame. */
  function CellOf(r: Reading, column: Column): Cell
    requires column != LegendColumn
  {
    match column
    case Date => Time(r.date)
    case EquipmentName => TextCell(r.equipmentName)
    case PointMeasurement => TextCell(r.pointMeasurement)
    case Value => Number(r.value)
    case Key => TextCell(r.key)
    case StatusColumn => TextCell(r.status)
    case Note => TextCell(r.note)
    case EquipmentTagId => TextCell(r.equipmentTagId)
    case Technology => TextCell(r.technology)
    case ComponentColumn => TextCell(r.component)
    case Unit => TextCell(r.unit)
    case AlarmStandard => TextCell(r.alarmStandard)
    case Parameter => TextCell(r.parameter)
    case ExcellentBand => TextCell(r.excellent)
    case AcceptableBand => TextCell(r.acceptable)
    case RequiresEvaluationBand => TextCell(r.requiresEvaluation)
    case UnacceptableBand => TextCell(r.unacceptable)
    case AlSet => TextCell(r.alSet)
    case LoadKw => TextCell(r.loadKw)
  }

  /** The cells of one row under a list of columns, in that order. */
  function Project(r: Reading, columns: seq<Column>): (cells: seq<Cell>)
    requires LegendColumn !in columns
    ensures |cells| == |columns|
    ensures forall i :: 0 <= i < |columns| ==> cells[i] == CellOf(r, columns[i])
  {
    seq(|columns|, i requires 0 <= i < |columns| => CellOf(r, columns[i]))
  }

  /** The `equipment_name` column. */
  function EquipmentNames(rows: seq<Reading>): (col: seq<Option<string>>)
    ensures |col| == |rows| && forall i :: 0 <= i < |rows| ==> col[i] == rows[i].equipmentName
    ensures forall v :: Some(v) in col <==> exists r :: r in rows && r.equipmentName == Some(v)
  {
    var col := seq(|rows|, i requires 0 <= i < |rows| => rows[i].equipmentName);
    forall v | Some(v) in col
      ensures exists r :: r in rows && r.equipmentName == Some(v)
    {
      var i :| 0 <= i < |col| && col[i] == Some(v);
      assert rows[i] in rows;
    }
    forall v, r | r in rows && r.equipmentName == Some(v)
      ensures Some(v) in col
    {
      var i :| 0 <= i < |rows| && rows[i] == r;
      assert col[i] == Some(v);
    }
    col
  }

  /** The `component` column. */
  function Components(rows: seq<Reading>): (col: seq<Option<string>>)
    ensures |col| == |rows| && forall i :: 0 <= i < |rows| ==> col[i] == rows[i].component
    ensures forall v :: Some(v) in col <==> exists r :: r in rows && r.component == Some(v)
  {
    var col := seq(|rows|, i requires 0 <= i < |rows| => rows[i].component);
    forall v | Some(v) in col
      ensures exists r :: r in rows && r.component == Some(v)
    {
      var i :| 0 <= i < |col| && col[i] == Some(v);
      assert rows[i] in rows;
    }
    forall v, r | r in rows && r.component == Some(v)
      ensures Some(v) in col
    {
      var i :| 0 <= i < |rows| && rows[i] == r;
      assert col[i] == Some(v);
    }
    col
  }

  /** The `point_measurement` column. */
  function Points(rows: seq<Reading>): (col: seq<Option<string>>)
    ensures |col| == |rows| && forall i :: 0 <= i < |rows| ==> col[i] == rows[i].pointMeasurement
    ensures forall v :: Some(v) in col <==> exists r :: r in rows && r.pointMeasurement == Some(v)
  {
    var col := seq(|rows|, i requires 0 <= i < |rows| => rows[i].pointMeasurement);
    forall v | Some(v) in col
      ensures exists r :: r in rows && r.pointMeasurement == Some(v)
    {
      var i :| 0 <= i < |col| && col[i] == Some(v);
      assert rows[i] in rows;
    }
    forall v, r | r in rows && r.pointMeasurement == Some(v)
      ensures Some(v) in col
    {
      var i :| 0 <= i < |rows| && rows[i] == r;
      assert col[i] == Some(v);
    }
    col
  }

}

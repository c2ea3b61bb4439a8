/**
 * The three selection widgets and the frames they narrow: equipment, then
 * component within it, then measurement points within both; and the frame
 * the chart and tables are drawn from, which keeps every row of the whole
 * dataset whose point is selected.
 */
module Cascade {

  import opened Wrappers
  import opened Sequences
  import opened Readings

  /**
   * `frame[frame[column] == selected]`. A selection box over no options
   * yields `None`, and pandas compares `None` unequal to every cell, so it
   * matches no row.
   */
  predicate Matches(cell: Option<string>, selected: Option<string>) {
    selected.Some? && cell == selected
  }

  /** The equipment selection box offers each named equipment once, in order of first appearance. */
  function EquipmentOptions(df: seq<Reading>): (options: seq<string>)
    ensures Distinct(options)
    ensures forall e :: e in options <==> exists r :: r in df && r.equipmentName == Some(e)
    ensures forall i, j :: 0 <= i < j < |options| ==>
      FirstIndex(EquipmentNames(df), Some(options[i])) < FirstIndex(EquipmentNames(df), Some(options[j]))
  {
    Unique(EquipmentNames(df))
  }

  /** `equipment_df`: the rows of the selected equipment, in order. */
  function EquipmentRows(df: seq<Reading>, equipment: Option<string>): (rows: seq<Reading>)
    ensures forall r :: r in rows <==> r in df && Matches(r.equipmentName, equipment)
  {
    Where(df, (r: Reading) => Matches(r.equipmentName, equipment))
  }

  /**
   * The component box offers each component named by a row of the selected
   * equipment, once, in order of first appearance in `equipment_df`.
   */
  function ComponentOptions(df: seq<Reading>, equipment: Option<string>): (options: seq<string>)
    ensures Distinct(options)
    ensures forall c :: c in options <==>
      exists r :: r in df && Matches(r.equipmentName, equipment) && r.component == Some(c)
    ensures forall i, j :: 0 <= i < j < |options| ==>
      FirstIndex(Components(EquipmentRows(df, equipment)), Some(options[i]))
        < FirstIndex(Components(EquipmentRows(df, equipment)), Some(options[j]))
  {
    Unique(Components(EquipmentRows(df, equipment)))
  }

  /** `component_df`: the rows of the selected equipment and component, in order. */
  function ComponentRows(df: seq<Reading>, equipment: Option<string>, component: Option<string>)
    : (rows: seq<Reading>)
    ensures forall r :: r in rows <==>
      r in df && Matches(r.equipmentName, equipment) && Matches(r.component, component)
  {
    Where(EquipmentRows(df, equipment), (r: Reading) => Matches(r.component, component))
  }

  /**
   * The point box offers each point measured on the selected equipment and
   * component, once, in order of first appearance in `component_df`.
   */
  function PointOptions(df: seq<Reading>, equipment: Option<string>, component: Option<string>)
    : (options: seq<string>)
    ensures Distinct(options)
    ensures forall p :: p in options <==>
      exists r :: r in df && Matches(r.equipmentName, equipment) && Matches(r.component, component)
        && r.pointMeasurement == Some(p)
    ensures forall i, j :: 0 <= i < j < |options| ==>
      FirstIndex(Points(ComponentRows(df, equipment, component)), Some(options[i]))
        < FirstIndex(Points(ComponentRows(df, equipment, component)), Some(options[j]))
  {
    PointsOfComponent(df, equipment, component);
    Unique(Points(ComponentRows(df, equipment, component)))
  }

  /** The points named in `component_df` are those of the matching rows of the dataset. */
  lemma PointsOfComponent(df: seq<Reading>, equipment: Option<string>, component: Option<string>)
    ensures forall p :: Some(p) in Points(ComponentRows(df, equipment, component)) <==>
      exists r :: r in df && Matches(r.equipmentName, equipment) && Matches(r.component, component)
        && r.pointMeasurement == Some(p)
  {
    var rows := ComponentRows(df, equipment, component);
    forall p
      ensures (exists r :: r in rows && r.pointMeasurement == Some(p)) <==>
        exists r :: r in df && Matches(r.equipmentName, equipment)
          && Matches(r.component, component) && r.pointMeasurement == Some(p)
    {
    }
  }

  /** A row is plotted when its point is one of the selected points. */
  predicate IsSelected(r: Reading, points: seq<string>) {
    r.pointMeasurement.Some? && r.pointMeasurement.value in points
  }

  /**
   * `plot_df`: `df[df["point_measurement"].isin(selected_pms)]`, taken from
   * the whole dataset; the equipment and component selections do not
   * restrict it.
   */
  function PlotSubset(df: seq<Reading>, points: seq<string>): (rows: seq<Reading>)
    ensures |rows| <= |df|
    ensures forall r :: r in rows <==> r in df && IsSelected(r, points)
    ensures forall r :: multiset(rows)[r] == if IsSelected(r, points) then multiset(df)[r] else 0
  {
    Where(df, (r: Reading) => IsSelected(r, points))
  }

  /** Selecting no point plots nothing, whatever equipment and component are chosen. */
  lemma EmptySelectionPlotsNothing(df: seq<Reading>)
    ensures PlotSubset(df, []) == []
  {
  }

  /** What the widgets allow: each selection is among the options its box offers. */
  predicate ValidSelection(df: seq<Reading>, equipment: Option<string>, component: Option<string>,
                           points: seq<string>)
  {
    && (equipment.Some? ==> equipment.value in EquipmentOptions(df))
    && (component.Some? ==> component.value in ComponentOptions(df, equipment))
    && (forall p :: p in points ==> p in PointOptions(df, equipment, component))
  }

  /** Every point offered for a component is measured on the chosen equipment. */
  lemma PointOptionsWithinEquipment(df: seq<Reading>, equipment: Option<string>,
                                    component: Option<string>, p: string)
    requires p in PointOptions(df, equipment, component)
    ensures exists r :: r in EquipmentRows(df, equipment) && r.pointMeasurement == Some(p)
    ensures component.value in ComponentOptions(df, equipment)
  {
    var r :| r in df && Matches(r.equipmentName, equipment) && Matches(r.component, component)
      && r.pointMeasurement == Some(p);
    assert r in EquipmentRows(df, equipment);
  }

  /**
   * With a valid selection, every plotted row measures a point of the chosen
   * equipment and component, although the row itself may belong to another
   * equipment or component.
   */
  lemma PlottedPointsComeFromSelection(df: seq<Reading>, equipment: Option<string>,
                                       component: Option<string>, points: seq<string>, r: Reading)
    requires ValidSelection(df, equipment, component, points)
    requires r in PlotSubset(df, points)
    ensures exists q ::
      q in ComponentRows(df, equipment, component) && q.pointMeasurement == r.pointMeasurement
  {
    var p := r.pointMeasurement.value;
    assert p in PointOptions(df, equipment, component);
    var q :| q in df && Matches(q.equipmentName, equipment) && Matches(q.component, component)
      && q.pointMeasurement == Some(p);
    assert q in ComponentRows(df, equipment, component);
  }

  /** A component the chosen equipment does not have offers no points. */
  lemma StaleComponentHasNoPoints(df: seq<Reading>, equipment: Option<string>, c: string)
    requires c !in ComponentOptions(df, equipment)
    ensures PointOptions(df, equipment, Some(c)) == []
  {
    var options := PointOptions(df, equipment, Some(c));
    if options != [] {
      PointOptionsWithinEquipment(df, equipment, Some(c), options[0]);
      assert false;
    }
  }

  /**
   * Under a component the chosen equipment does not have, the only point
   * selection the box allows is the empty one, which plots nothing.
   */
  lemma StaleComponentPlotsNothing(df: seq<Reading>, equipment: Option<string>, c: string,
                                   points: seq<string>)
    requires c !in ComponentOptions(df, equipment)
    requires forall p :: p in points ==> p in PointOptions(df, equipment, Some(c))
    ensures PlotSubset(df, points) == []
  {
    StaleComponentHasNoPoints(df, equipment, c);
    var rows := PlotSubset(df, points);
    forall r | r in rows
      ensures false
    {
    }
    if rows != [] {
      assert false;
    }
  }

}

/** The PGA of one flat-file row (smtk/gm_database.py:490-496, 671-676):
    the unit is either part of the PGA header (`pga(<unit>)`) or read from
    the row's unit column, and the value is converted to cm/s². Finite
    values are exact reals; NaN and the infinities that `float` reads pass
    through the conversion unchanged; a conversion that raises leaves the
    PGA unassigned. */
module Rows {
  import opened Wrappers
  import opened Numbers
  import opened Text
  import opened Headers
  import Units

  /** The unit `_rows` hands to `_get_pga`, as the code is written: the
      row's unit column is read only when its header is spelt exactly
      `acceleration_unit`; for any other spelling that `_get_pga_column`
      accepts (`Acceleration_Unit`, ` acceleration_unit `, ...) the header
      text itself is taken as the unit. */
  function RowUnitAsWritten(cols: PgaColumns, row: map<string, string>): (r: Option<string>)
    ensures cols.UnitInName? || cols.unitColumn == "acceleration_unit" ==> r == RowUnit(cols, row)
    ensures cols.UnitColumn? && cols.unitColumn != "acceleration_unit" ==> r == Some(cols.unitColumn)
  {
    match cols
    case UnitInName(_, unit) => Some(unit)
    case UnitColumn(_, unitColumn) =>
      if unitColumn == "acceleration_unit" then
        if unitColumn in row then Some(row[unitColumn]) else None
      else Some(unitColumn)
  }

  /** The unit as evidently intended: the value of whichever column
      `_get_pga_column` identified as the unit column. */
  function RowUnit(cols: PgaColumns, row: map<string, string>): (r: Option<string>)
    ensures cols.UnitInName? ==> r == Some(cols.unit)
    ensures cols.UnitColumn? ==> (r.Some? <==> cols.unitColumn in row)
    ensures cols.UnitColumn? && r.Some? ==> r.value == row[cols.unitColumn]
  {
    match cols
    case UnitInName(_, unit) => Some(unit)
    case UnitColumn(_, unitColumn) => if unitColumn in row then Some(row[unitColumn]) else None
  }

  /** `_get_pga`: `float` of the PGA column (the parameter `parseFloat`,
      which may yield NaN or an infinity), converted from `unit` to
      cm/s². */
  function PgaFrom(cols: PgaColumns, row: map<string, string>, unit: Option<string>,
                   parseFloat: string -> Option<Float>): (r: Option<Float>)
    ensures r.Some? ==> unit.Some? && Units.FamilyOf(unit.value).Some?
  {
    if unit.None? || cols.column !in row then None
    else match parseFloat(row[cols.column])
      case None => None
      case Some(v) =>
        match Units.ConvertAccelFloat(v, unit.value, Units.DefaultTarget)
        case Success(cms) => Some(cms)
        case Failure(_) => None
  }

  /** The PGA the corrected code assigns to the row: present exactly when
      the unit is known and the value reads as a float, and then the value
      scaled to cm/s². */
  function RowPga(cols: PgaColumns, row: map<string, string>, parseFloat: string -> Option<Float>): (r: Option<Float>)
    ensures r.Some? <==> RowUnit(cols, row).Some? && Units.FamilyOf(RowUnit(cols, row).value).Some? &&
                         cols.column in row && parseFloat(row[cols.column]).Some?
    ensures r.Some? ==>
              r.value == Units.Scale(parseFloat(row[cols.column]).value,
                                     Units.CentimetresPer(Units.FamilyOf(RowUnit(cols, row).value).value))
  {
    var unit := RowUnit(cols, row);
    if unit.Some? && Units.FamilyOf(unit.value).Some? && cols.column in row && parseFloat(row[cols.column]).Some? then
      PgaFromValue(cols, row, unit.value, parseFloat);
      PgaFrom(cols, row, unit, parseFloat)
    else PgaFrom(cols, row, unit, parseFloat)
  }

  /** No spelling of the unit header other than `acceleration_unit` is a
      unit: each known unit is at most eight characters long. */
  lemma UnitHeaderIsNoUnit(h: string)
    requires IsUnitHeader(h)
    ensures Units.FamilyOf(h).None?
  {
    assert |LowerText(Strip(h))| == 17;
  }

  /** The PGA the code as written assigns to the row: wherever the unit
      header is spelt other than exactly `acceleration_unit`, none. */
  function RowPgaAsWritten(cols: PgaColumns, row: map<string, string>, parseFloat: string -> Option<Float>): (r: Option<Float>)
    ensures cols.UnitColumn? && cols.unitColumn != "acceleration_unit" && IsUnitHeader(cols.unitColumn) ==> r.None?
  {
    if cols.UnitColumn? && cols.unitColumn != "acceleration_unit" && IsUnitHeader(cols.unitColumn) then
      UnitHeaderIsNoUnit(cols.unitColumn);
      PgaFrom(cols, row, RowUnitAsWritten(cols, row), parseFloat)
    else PgaFrom(cols, row, RowUnitAsWritten(cols, row), parseFloat)
  }

  /** With a unit column, the corrected PGA is the row's value converted
      from the row's unit, whatever the unit header's letter case or
      surrounding blanks; it is present exactly when the value reads as a
      number and the unit is one of the accepted tokens. */
  lemma RowPgaFromUnitColumn(p: string, a: string, row: map<string, string>, parseFloat: string -> Option<Float>)
    requires p in row && a in row
    ensures RowPga(UnitColumn(p, a), row, parseFloat).Some? <==>
              parseFloat(row[p]).Some? && row[a] in AccelUnits
    ensures RowPga(UnitColumn(p, a), row, parseFloat).Some? ==>
              RowPga(UnitColumn(p, a), row, parseFloat) ==
                Some(Units.Scale(parseFloat(row[p]).value, Units.CentimetresPer(Units.FamilyOf(row[a]).value)))
  {
    var cols := UnitColumn(p, a);
    AccelUnitsConvertible(row[a]);
    assert RowPga(cols, row, parseFloat) == PgaFrom(cols, row, Some(row[a]), parseFloat);
    if parseFloat(row[p]).Some? && row[a] in AccelUnits {
      PgaFromValue(cols, row, row[a], parseFloat);
    }
  }

  /** A readable value in a recognised unit is scaled by that unit's
      cm/s² factor. */
  lemma PgaFromValue(cols: PgaColumns, row: map<string, string>, unit: string, parseFloat: string -> Option<Float>)
    requires cols.column in row && parseFloat(row[cols.column]).Some? && Units.FamilyOf(unit).Some?
    ensures PgaFrom(cols, row, Some(unit), parseFloat) ==
              Some(Units.Scale(parseFloat(row[cols.column]).value, Units.CentimetresPer(Units.FamilyOf(unit).value)))
  {
    Units.FloatToDefaultTarget(parseFloat(row[cols.column]).value, unit);
  }

  /** Where the header is spelt exactly `acceleration_unit`, or the unit is
      in the PGA header, the code as written and the corrected code agree. */
  lemma AsWrittenAgreesOnExactHeader(cols: PgaColumns, row: map<string, string>, parseFloat: string -> Option<Float>)
    requires cols.UnitColumn? ==> cols.unitColumn == "acceleration_unit"
    ensures RowPgaAsWritten(cols, row, parseFloat) == RowPga(cols, row, parseFloat)
  {
  }

  /** The header `PGA,Acceleration_Unit` is accepted: `PGA` is taken as
      the PGA column and `Acceleration_Unit` as the unit column. */
  lemma MixedCaseHeadersAccepted()
    ensures GetPgaColumn(["PGA", "Acceleration_Unit"]) == Success(UnitColumn("PGA", "Acceleration_Unit"))
  {
    var names := ["PGA", "Acceleration_Unit"];
    assert LowerText(Strip("PGA")) == "pga" by {
      assert Strip("PGA") == "PGA";
    }
    assert LowerText(Strip("Acceleration_Unit")) == "acceleration_unit" by {
      assert Strip("Acceleration_Unit") == "Acceleration_Unit";
    }
    assert names[1..][1..] == [];
  }

  /** Under the header `PGA,Acceleration_Unit` every row loses its PGA in
      the code as written: the header text `Acceleration_Unit` is not a
      unit, so the conversion raises, even for a row whose unit is `g`. The
      corrected code converts it. */
  lemma MixedCaseUnitHeaderLosesPga(parseFloat: string -> Option<Float>)
    requires parseFloat("1") == Some(Fin(1.0))
    ensures GetPgaColumn(["PGA", "Acceleration_Unit"]) == Success(UnitColumn("PGA", "Acceleration_Unit"))
    ensures var row := map["PGA" := "1", "Acceleration_Unit" := "g"];
            && RowPgaAsWritten(UnitColumn("PGA", "Acceleration_Unit"), row, parseFloat) == None
            && RowPga(UnitColumn("PGA", "Acceleration_Unit"), row, parseFloat) == Some(Fin(100.0 * Units.G))
  {
    MixedCaseHeadersAccepted();
    var cols := UnitColumn("PGA", "Acceleration_Unit");
    var row := map["PGA" := "1", "Acceleration_Unit" := "g"];
    assert Units.FamilyOf("Acceleration_Unit").None?;
    assert RowUnitAsWritten(cols, row) == Some("Acceleration_Unit");
    assert RowUnit(cols, row) == Some("g");
    PgaFromValue(cols, row, "g", parseFloat);
  }
}

/** The fixed record schema of a ground-motion database table: column
    classes, the "default means missing" sentinel of each class, column
    bounds, and the declared column list (smtk/gm_database.py:48-236). */
module Schema {
  import opened Wrappers
  import opened Numbers

  /** The pytables column classes the schema can use. `DateTime` is the
      pseudo-class `_col` turns into a 19-character string column. */
  datatype ColClass =
    | StringCol | EnumCol | BoolCol | DateTime
    | IntCol | Int8Col | Int16Col | Int32Col | Int64Col
    | UIntCol | UInt8Col | UInt16Col | UInt32Col | UInt64Col
    | FloatCol | Float16Col | Float32Col | Float64Col | Float96Col | Float128Col

  /** A value held by one cell of a table row. Strings are the column's
      bytes, one char per byte; a vector column holds a `VecV`. */
  datatype Value = StrV(s: string) | IntV(i: int) | FloatV(f: Float) | BoolV(b: bool) | VecV(xs: seq<Float>)

  predicate IsSignedInt(c: ColClass) {
    c.IntCol? || c.Int8Col? || c.Int16Col? || c.Int32Col? || c.Int64Col?
  }

  predicate IsUnsignedInt(c: ColClass) {
    c.UIntCol? || c.UInt8Col? || c.UInt16Col? || c.UInt32Col? || c.UInt64Col?
  }

  predicate IsFloat(c: ColClass) {
    c.FloatCol? || c.Float16Col? || c.Float32Col? || c.Float64Col? || c.Float96Col? || c.Float128Col?
  }

  predicate IsNumeric(c: ColClass) {
    IsSignedInt(c) || IsUnsignedInt(c) || IsFloat(c)
  }

  /** Bit width of a signed integer class; `IntCol` takes numpy's default
      integer, 64 bits wide. */
  function SignedBits(c: ColClass): (bits: nat)
    requires IsSignedInt(c)
    ensures bits in {8, 16, 32, 64}
  {
    match c
    case Int8Col => 8
    case Int16Col => 16
    case Int32Col => 32
    case _ => 64
  }

  function Pow2(n: nat): (r: nat)
    ensures r >= 1
  {
    if n == 0 then 1 else 2 * Pow2(n - 1)
  }

  lemma {:induction false} Pow2Add(a: nat, b: nat)
    ensures Pow2(a + b) == Pow2(a) * Pow2(b)
  {
    if a > 0 {
      Pow2Add(a - 1, b);
    }
  }

  /** The minima numpy reports for the signed widths. */
  lemma SignedMinima()
    ensures Pow2(7) == 128 && Pow2(15) == 32768 && Pow2(31) == 2147483648
    ensures Pow2(63) == 9223372036854775808
  {
    assert Pow2(8) == 256;
    Pow2Add(8, 8);
    Pow2Add(15, 16);
    Pow2Add(16, 16);
    Pow2Add(31, 32);
  }

  /** The entry of COLUMN_DEFAULTS for a class, if it has one. `BoolCol` has
      none (a boolean cannot express "missing"); `DateTime` never reaches the
      table because `_col` has replaced it by `StringCol` first. */
  function ColumnDefault(c: ColClass): Option<Value> {
    match c
    case StringCol => Some(StrV(""))
    case EnumCol => Some(StrV(""))
    case BoolCol => None
    case DateTime => None
    case FloatCol => Some(FloatV(NaN))
    case Float16Col => Some(FloatV(NaN))
    case Float32Col => Some(FloatV(NaN))
    case Float64Col => Some(FloatV(NaN))
    case Float96Col => Some(FloatV(NaN))
    case Float128Col => Some(FloatV(NaN))
    case UIntCol => Some(IntV(0))
    case UInt8Col => Some(IntV(0))
    case UInt16Col => Some(IntV(0))
    case UInt32Col => Some(IntV(0))
    case UInt64Col => Some(IntV(0))
    case IntCol => Some(IntV(-9223372036854775808))
    case Int8Col => Some(IntV(-128))
    case Int16Col => Some(IntV(-32768))
    case Int32Col => Some(IntV(-2147483648))
    case Int64Col => Some(IntV(-9223372036854775808))
  }

  /** The default pytables itself gives a column without COLUMN_DEFAULTS
      entry and without `dflt` (only `BoolCol` occurs). */
  function PytablesDefault(c: ColClass): Value {
    if c.BoolCol? then BoolV(false) else StrV("")
  }

  /** Keyword arguments of `_col`. `shape` 0 is a scalar column, n > 0 a
      vector of n elements. */
  datatype ColOptions = ColOptions(
    dflt: Option<Value>,
    min: Option<real>,
    max: Option<real>,
    itemsize: Option<nat>,
    shape: nat,
    enumValues: seq<string>)

  /** A column of the table: what `_col` returns. */
  datatype ColumnSpec = ColumnSpec(
    name: string,
    cls: ColClass,
    isDateTime: bool,
    itemsize: Option<nat>,
    shape: nat,
    enumValues: seq<string>,
    dflt: Value,
    min: Option<real>,
    max: Option<real>)

  const NoOptions := ColOptions(None, None, None, None, 0, [])

  /** `_col`: builds a column, choosing the "missing" default when none is
      given and keeping the bounds as metadata only. */
  function MakeColumn(name: string, cls: ColClass, opts: ColOptions): (col: ColumnSpec)
    ensures col.name == name && col.min == opts.min && col.max == opts.max && col.shape == opts.shape
    ensures col.isDateTime <==> cls == DateTime
    ensures cls == DateTime ==> col.cls == StringCol && col.itemsize == (if opts.itemsize.None? then Some(19) else opts.itemsize)
    ensures cls != DateTime ==> col.cls == cls && col.itemsize == opts.itemsize
    ensures opts.dflt.Some? ==> col.dflt == opts.dflt.value && col.enumValues == opts.enumValues
    ensures cls != EnumCol ==> col.enumValues == opts.enumValues
  {
    var isDt := cls == DateTime;
    var cls' := if isDt then StringCol else cls;
    var itemsize := if isDt && opts.itemsize.None? then Some(19) else opts.itemsize;
    var (dflt, enumValues) :=
      if opts.dflt.Some? then (opts.dflt.value, opts.enumValues)
      else match ColumnDefault(cls')
        case Some(d) =>
          if cls' == EnumCol then
            (StrV(""), if "" in opts.enumValues then opts.enumValues else [""] + opts.enumValues)
          else (d, opts.enumValues)
        case None => (PytablesDefault(cls'), opts.enumValues);
    ColumnSpec(name, cls', isDt, itemsize, opts.shape, enumValues, dflt, opts.min, opts.max)
  }

  /** Without an explicit `dflt`, every numeric column defaults to a value
      that reads as "missing": the type minimum for signed integers, 0 for
      unsigned ones, NaN for floats; strings and date-times default to the
      empty string, booleans to False. */
  lemma MissingSentinels(name: string, cls: ColClass, opts: ColOptions)
    requires opts.dflt.None?
    ensures IsSignedInt(cls) ==> MakeColumn(name, cls, opts).dflt == IntV(SignedMinimum(cls))
    ensures IsUnsignedInt(cls) ==> MakeColumn(name, cls, opts).dflt == IntV(0)
    ensures IsFloat(cls) ==> MakeColumn(name, cls, opts).dflt == FloatV(NaN)
    ensures cls == StringCol || cls == DateTime ==> MakeColumn(name, cls, opts).dflt == StrV("")
    ensures cls == BoolCol ==> MakeColumn(name, cls, opts).dflt == BoolV(false)
  {
    DefaultOfClass(cls);
    if IsSignedInt(cls) || IsUnsignedInt(cls) || IsFloat(cls) {
      assert MakeColumn(name, cls, opts).dflt == ColumnDefault(cls).value;
    }
  }

  /** The COLUMN_DEFAULTS entry of each numeric class. */
  lemma DefaultOfClass(cls: ColClass)
    ensures IsSignedInt(cls) ==> ColumnDefault(cls) == Some(IntV(SignedMinimum(cls)))
    ensures IsUnsignedInt(cls) ==> ColumnDefault(cls) == Some(IntV(0))
    ensures IsFloat(cls) ==> ColumnDefault(cls) == Some(FloatV(NaN))
  {
  }

  /** `np.iinfo(...).min` of a signed class. */
  function SignedMinimum(c: ColClass): int
    requires IsSignedInt(c)
  {
    match c
    case Int8Col => -128
    case Int16Col => -32768
    case Int32Col => -2147483648
    case _ => -9223372036854775808
  }

  /** The minimum of a signed class of b bits is -2^(b-1). */
  lemma SignedMinimumIsPower(c: ColClass)
    requires IsSignedInt(c)
    ensures SignedMinimum(c) == -(Pow2(SignedBits(c) - 1) as int)
  {
    SignedMinima();
  }

  /** An enum column without explicit `dflt` defaults to the empty string,
      which is put in front of its value list when the list lacks it; the
      list is otherwise unchanged. */
  lemma EnumSentinel(name: string, opts: ColOptions)
    requires opts.dflt.None?
    ensures MakeColumn(name, EnumCol, opts).dflt == StrV("")
    ensures "" in MakeColumn(name, EnumCol, opts).enumValues
    ensures "" in opts.enumValues ==> MakeColumn(name, EnumCol, opts).enumValues == opts.enumValues
    ensures "" !in opts.enumValues ==> MakeColumn(name, EnumCol, opts).enumValues == [""] + opts.enumValues
  {
  }

  /** The stored form of the sentinel: a vector column holds its scalar
      default in every element. */
  function Sentinel(col: ColumnSpec): (v: Value)
    ensures col.shape > 0 && col.dflt.FloatV? ==> v.VecV? && |v.xs| == col.shape
    ensures col.shape > 0 && col.dflt.FloatV? ==> forall i :: 0 <= i < |v.xs| ==> v.xs[i] == col.dflt.f
    ensures col.shape == 0 ==> v == col.dflt
  {
    if col.shape > 0 && col.dflt.FloatV? then VecV(seq(col.shape, _ => col.dflt.f)) else col.dflt
  }

  function Names(schema: seq<ColumnSpec>): (names: seq<string>)
    ensures |names| == |schema|
    ensures forall i :: 0 <= i < |schema| ==> names[i] == schema[i].name
  {
    seq(|schema|, i requires 0 <= i < |schema| => schema[i].name)
  }

  predicate DistinctNames(schema: seq<ColumnSpec>) {
    forall i, j :: 0 <= i < j < |schema| ==> schema[i].name != schema[j].name
  }

  /** What the writer relies on: unique names (the table's columns are a
      dictionary), and bounds only on numeric columns. */
  predicate WellFormed(schema: seq<ColumnSpec>) {
    && DistinctNames(schema)
    && forall i :: 0 <= i < |schema| ==>
         (schema[i].min.Some? || schema[i].max.Some?) ==> IsNumeric(schema[i].cls)
  }

  // The columns of GMDatabaseTable.

  /** Number of columns of GMDatabaseTable. */
  const ColumnCount: nat := 63

  /** Name of the i-th column. pytables lays out columns declared without a
      position in alphabetical order of their names, and the row writer
      visits them in that order, so the columns are numbered by name. */
  function ColumnName(i: nat): string
    requires i < ColumnCount
  {
    match i
    case 0 => "arias_intensity"
    case 1 => "azimuth"
    case 2 => "cav"
    case 3 => "depth_to_basement"
    case 4 => "depth_top_of_rupture"
    case 5 => "digital_recording"
    case 6 => "dip_1"
    case 7 => "dip_2"
    case 8 => "duration_5_75"
    case 9 => "duration_5_95"
    case 10 => "event_country"
    case 11 => "event_id"
    case 12 => "event_latitude"
    case 13 => "event_longitude"
    case 14 => "event_name"
    case 15 => "event_time"
    case 16 => "factor"
    case 17 => "highest_usable_frequency_avg"
    case 18 => "highest_usable_frequency_h1"
    case 19 => "highest_usable_frequency_h2"
    case 20 => "hp_h1"
    case 21 => "hp_h2"
    case 22 => "hypocenter_depth"
    case 23 => "lowest_usable_frequency_avg"
    case 24 => "lowest_usable_frequency_h1"
    case 25 => "lowest_usable_frequency_h2"
    case 26 => "lp_h1"
    case 27 => "lp_h2"
    case 28 => "magnitude"
    case 29 => "magnitude_type"
    case 30 => "magnitude_uncertainty"
    case 31 => "npass"
    case 32 => "nroll"
    case 33 => "pga"
    case 34 => "pgd"
    case 35 => "pgv"
    case 36 => "rake_1"
    case 37 => "rake_2"
    case 38 => "record_id"
    case 39 => "repi"
    case 40 => "rhypo"
    case 41 => "rjb"
    case 42 => "rrup"
    case 43 => "rupture_length"
    case 44 => "rupture_width"
    case 45 => "rx"
    case 46 => "ry0"
    case 47 => "sa"
    case 48 => "station_elevation"
    case 49 => "station_id"
    case 50 => "station_latitude"
    case 51 => "station_longitude"
    case 52 => "station_name"
    case 53 => "strike_1"
    case 54 => "strike_2"
    case 55 => "style_of_faulting"
    case 56 => "tectonic_environment"
    case 57 => "type_of_filter"
    case 58 => "vs30"
    case 59 => "vs30_measured"
    case 60 => "vs30_sigma"
    case 61 => "z1"
    case _ => "z2pt5"
  }

  /** String columns and their widths in bytes. */
  const StringWidths: map<string, nat> := map[
      "event_country" := 30,
      "event_id" := 20,
      "event_name" := 40,
      "magnitude_type" := 5,
      "record_id" := 20,
      "station_id" := 20,
      "station_name" := 40,
      "tectonic_environment" := 30,
      "type_of_filter" := 25]

  /** Float64 scalar columns without bounds. */
  const Float64Names: set<string> := {
      "arias_intensity", "cav", "duration_5_75",
      "duration_5_95", "pga", "pgd",
      "pgv"}

  /** Columns with bounds: the four coordinates. */
  const BoundedNames: map<string, real> := map[
      "event_latitude" := 90.0, "event_longitude" := 180.0,
      "station_latitude" := 90.0, "station_longitude" := 180.0]

  function Str(name: string, size: nat): ColumnSpec {
    MakeColumn(name, StringCol, NoOptions.(itemsize := Some(size)))
  }

  /** The declaration of a column, by name. Every column not singled out
      here is a Float32 column. */
  function ColumnNamed(name: string): (col: ColumnSpec)
    ensures col.name == name
  {
    if name in StringWidths then Str(name, StringWidths[name])
    else if name == "event_time" then MakeColumn(name, DateTime, NoOptions)
    else if name in BoundedNames then
      MakeColumn(name, Float64Col, NoOptions.(min := Some(-BoundedNames[name]), max := Some(BoundedNames[name])))
    else if name in {"vs30_measured", "digital_recording"} then
      MakeColumn(name, BoolCol, NoOptions.(dflt := Some(BoolV(true))))
    else if name == "npass" then MakeColumn(name, Int8Col, NoOptions)
    else if name == "magnitude" then MakeColumn(name, Float16Col, NoOptions)
    else if name in Float64Names then MakeColumn(name, Float64Col, NoOptions)
    else if name == "sa" then MakeColumn(name, Float64Col, NoOptions.(shape := SaLength))
    else MakeColumn(name, Float32Col, NoOptions)
  }

  /** Number of reference periods of the spectral-acceleration vector. */
  const SaLength: nat := 111

  /** GMDatabaseTable, in the order its columns are stored and visited. */
  function GmTable(): (t: seq<ColumnSpec>)
    ensures |t| == ColumnCount
    ensures forall i :: 0 <= i < ColumnCount ==> t[i] == ColumnNamed(ColumnName(i))
  {
    seq(ColumnCount, i requires 0 <= i < ColumnCount => ColumnNamed(ColumnName(i)))
  }

  /** `a` and `b` have the same first `k` characters. */
  predicate AgreeUpTo(a: string, b: string, k: nat) {
    k <= |a| && k <= |b| && forall i :: 0 <= i < k ==> a[i] == b[i]
  }

  /** `a` sorts before `b` because they agree up to `k` and then `a` ends or
      has the smaller character. */
  predicate DiffersAt(a: string, b: string, k: nat) {
    AgreeUpTo(a, b, k) && k < |b| && (k == |a| || a[k] < b[k])
  }

  /** Python's ordering of strings (by code point). */
  predicate LexLess(a: string, b: string) {
    exists k: nat :: 0 <= k < |b| && DiffersAt(a, b, k)
  }

  lemma LexLessTransitive(a: string, b: string, c: string)
    requires LexLess(a, b) && LexLess(b, c)
    ensures LexLess(a, c)
  {
    var k1: nat :| k1 < |b| && DiffersAt(a, b, k1);
    var k2: nat :| k2 < |c| && DiffersAt(b, c, k2);
    var k := if k1 < k2 then k1 else k2;
    assert forall i :: 0 <= i < k ==> a[i] == b[i] == c[i];
    assert k < |c| && DiffersAt(a, c, k);
  }

  lemma LexLessIrreflexive(a: string)
    ensures !LexLess(a, a)
  {
  }

  predicate SortedByName(schema: seq<ColumnSpec>) {
    forall i :: 0 < i < |schema| ==> LexLess(schema[i - 1].name, schema[i].name)
  }

  /** Names sorted strictly are pairwise distinct. */
  lemma {:induction false} SortedNamesDistinct(schema: seq<ColumnSpec>)
    requires SortedByName(schema)
    ensures DistinctNames(schema)
  {
    forall i, j | 0 <= i < j < |schema|
      ensures schema[i].name != schema[j].name
    {
      SortedPairLess(schema, i, j);
      if schema[i].name == schema[j].name {
        LexLessIrreflexive(schema[i].name);
      }
    }
  }

  lemma {:induction false} SortedPairLess(schema: seq<ColumnSpec>, i: nat, j: nat)
    requires SortedByName(schema)
    requires i < j < |schema|
    ensures LexLess(schema[i].name, schema[j].name)
    decreases j - i
  {
    if i + 1 < j {
      SortedPairLess(schema, i, j - 1);
      LexLessTransitive(schema[i].name, schema[j - 1].name, schema[j].name);
    }
  }

  /** The column names, as the table lists them. */
  // The column names are sorted, checked eight neighbours at a time.

  lemma ColumnNamesSorted0()
    ensures forall i :: 1 <= i < 9 ==> LexLess(ColumnName(i - 1), ColumnName(i))
  {
    forall i | 1 <= i < 9
      ensures LexLess(ColumnName(i - 1), ColumnName(i))
    {
      if i == 1 {
        assert DiffersAt("arias_intensity", "azimuth", 1);
      } else if i == 2 {
        assert DiffersAt("azimuth", "cav", 0);
      } else if i == 3 {
        assert DiffersAt("cav", "depth_to_basement", 0);
      } else if i == 4 {
        assert DiffersAt("depth_to_basement", "depth_top_of_rupture", 8);
      } else if i == 5 {
        assert DiffersAt("depth_top_of_rupture", "digital_recording", 1);
      } else if i == 6 {
        assert DiffersAt("digital_recording", "dip_1", 2);
      } else if i == 7 {
        assert DiffersAt("dip_1", "dip_2", 4);
      } else if i == 8 {
        assert DiffersAt("dip_2", "duration_5_75", 1);
      }
    }
  }

  lemma ColumnNamesSorted1()
    ensures forall i :: 9 <= i < 17 ==> LexLess(ColumnName(i - 1), ColumnName(i))
  {
    forall i | 9 <= i < 17
      ensures LexLess(ColumnName(i - 1), ColumnName(i))
    {
      if i == 9 {
        assert DiffersAt("duration_5_75", "duration_5_95", 11);
      } else if i == 10 {
        assert DiffersAt("duration_5_95", "event_country", 0);
      } else if i == 11 {
        assert DiffersAt("event_country", "event_id", 6);
      } else if i == 12 {
        assert DiffersAt("event_id", "event_latitude", 6);
      } else if i == 13 {
        assert DiffersAt("event_latitude", "event_longitude", 7);
      } else if i == 14 {
        assert DiffersAt("event_longitude", "event_name", 6);
      } else if i == 15 {
        assert DiffersAt("event_name", "event_time", 6);
      } else if i == 16 {
        assert DiffersAt("event_time", "factor", 0);
      }
    }
  }

  lemma ColumnNamesSorted2()
    ensures forall i :: 17 <= i < 25 ==> LexLess(ColumnName(i - 1), ColumnName(i))
  {
    forall i | 17 <= i < 25
      ensures LexLess(ColumnName(i - 1), ColumnName(i))
    {
      if i == 17 {
        assert DiffersAt("factor", "highest_usable_frequency_avg", 0);
      } else if i == 18 {
        assert DiffersAt("highest_usable_frequency_avg", "highest_usable_frequency_h1", 25);
      } else if i == 19 {
        assert DiffersAt("highest_usable_frequency_h1", "highest_usable_frequency_h2", 26);
      } else if i == 20 {
        assert DiffersAt("highest_usable_frequency_h2", "hp_h1", 1);
      } else if i == 21 {
        assert DiffersAt("hp_h1", "hp_h2", 4);
      } else if i == 22 {
        assert DiffersAt("hp_h2", "hypocenter_depth", 1);
      } else if i == 23 {
        assert DiffersAt("hypocenter_depth", "lowest_usable_frequency_avg", 0);
      } else if i == 24 {
        assert DiffersAt("lowest_usable_frequency_avg", "lowest_usable_frequency_h1", 24);
      }
    }
  }

  lemma ColumnNamesSorted3()
    ensures forall i :: 25 <= i < 33 ==> LexLess(ColumnName(i - 1), ColumnName(i))
  {
    forall i | 25 <= i < 33
      ensures LexLess(ColumnName(i - 1), ColumnName(i))
    {
      if i == 25 {
        assert DiffersAt("lowest_usable_frequency_h1", "lowest_usable_frequency_h2", 25);
      } else if i == 26 {
        assert DiffersAt("lowest_usable_frequency_h2", "lp_h1", 1);
      } else if i == 27 {
        assert DiffersAt("lp_h1", "lp_h2", 4);
      } else if i == 28 {
        assert DiffersAt("lp_h2", "magnitude", 0);
      } else if i == 29 {
        assert DiffersAt("magnitude", "magnitude_type", 9);
      } else if i == 30 {
        assert DiffersAt("magnitude_type", "magnitude_uncertainty", 10);
      } else if i == 31 {
        assert DiffersAt("magnitude_uncertainty", "npass", 0);
      } else if i == 32 {
        assert DiffersAt("npass", "nroll", 1);
      }
    }
  }

  lemma ColumnNamesSorted4()
    ensures forall i :: 33 <= i < 41 ==> LexLess(ColumnName(i - 1), ColumnName(i))
  {
    forall i | 33 <= i < 41
      ensures LexLess(ColumnName(i - 1), ColumnName(i))
    {
      if i == 33 {
        assert DiffersAt("nroll", "pga", 0);
      } else if i == 34 {
        assert DiffersAt("pga", "pgd", 2);
      } else if i == 35 {
        assert DiffersAt("pgd", "pgv", 2);
      } else if i == 36 {
        assert DiffersAt("pgv", "rake_1", 0);
      } else if i == 37 {
        assert DiffersAt("rake_1", "rake_2", 5);
      } else if i == 38 {
        assert DiffersAt("rake_2", "record_id", 1);
      } else if i == 39 {
        assert DiffersAt("record_id", "repi", 2);
      } else if i == 40 {
        assert DiffersAt("repi", "rhypo", 1);
      }
    }
  }

  lemma ColumnNamesSorted5()
    ensures forall i :: 41 <= i < 49 ==> LexLess(ColumnName(i - 1), ColumnName(i))
  {
    forall i | 41 <= i < 49
      ensures LexLess(ColumnName(i - 1), ColumnName(i))
    {
      if i == 41 {
        assert DiffersAt("rhypo", "rjb", 1);
      } else if i == 42 {
        assert DiffersAt("rjb", "rrup", 1);
      } else if i == 43 {
        assert DiffersAt("rrup", "rupture_length", 1);
      } else if i == 44 {
        assert DiffersAt("rupture_length", "rupture_width", 8);
      } else if i == 45 {
        assert DiffersAt("rupture_width", "rx", 1);
      } else if i == 46 {
        assert DiffersAt("rx", "ry0", 1);
      } else if i == 47 {
        assert DiffersAt("ry0", "sa", 0);
      } else if i == 48 {
        assert DiffersAt("sa", "station_elevation", 1);
      }
    }
  }

  lemma ColumnNamesSorted6()
    ensures forall i :: 49 <= i < 57 ==> LexLess(ColumnName(i - 1), ColumnName(i))
  {
    forall i | 49 <= i < 57
      ensures LexLess(ColumnName(i - 1), ColumnName(i))
    {
      if i == 49 {
        assert DiffersAt("station_elevation", "station_id", 8);
      } else if i == 50 {
        assert DiffersAt("station_id", "station_latitude", 8);
      } else if i == 51 {
        assert DiffersAt("station_latitude", "station_longitude", 9);
      } else if i == 52 {
        assert DiffersAt("station_longitude", "station_name", 8);
      } else if i == 53 {
        assert DiffersAt("station_name", "strike_1", 2);
      } else if i == 54 {
        assert DiffersAt("strike_1", "strike_2", 7);
      } else if i == 55 {
        assert DiffersAt("strike_2", "style_of_faulting", 2);
      } else if i == 56 {
        assert DiffersAt("style_of_faulting", "tectonic_environment", 0);
      }
    }
  }

  lemma ColumnNamesSorted7()
    ensures forall i :: 57 <= i < 63 ==> LexLess(ColumnName(i - 1), ColumnName(i))
  {
    forall i | 57 <= i < 63
      ensures LexLess(ColumnName(i - 1), ColumnName(i))
    {
      if i == 57 {
        assert DiffersAt("tectonic_environment", "type_of_filter", 1);
      } else if i == 58 {
        assert DiffersAt("type_of_filter", "vs30", 0);
      } else if i == 59 {
        assert DiffersAt("vs30", "vs30_measured", 4);
      } else if i == 60 {
        assert DiffersAt("vs30_measured", "vs30_sigma", 5);
      } else if i == 61 {
        assert DiffersAt("vs30_sigma", "z1", 0);
      } else if i == 62 {
        assert DiffersAt("z1", "z2pt5", 1);
      }
    }
  }

  /** The declared table has distinct names, kept in sorted order, and
      bounds only on numeric columns. */
  lemma GmTableWellFormed()
    ensures WellFormed(GmTable())
    ensures SortedByName(GmTable())
  {
    ColumnNamesSorted0();
    ColumnNamesSorted1();
    ColumnNamesSorted2();
    ColumnNamesSorted3();
    ColumnNamesSorted4();
    ColumnNamesSorted5();
    ColumnNamesSorted6();
    ColumnNamesSorted7();
    var t := GmTable();
    assert SortedByName(t);
    SortedNamesDistinct(t);
    forall i | 0 <= i < |t|
      ensures (t[i].min.Some? || t[i].max.Some?) ==> IsNumeric(t[i].cls)
    {
      ColumnNamedBounds(ColumnName(i));
    }
  }

  /** Only the coordinate columns carry bounds, and they are Float64. */
  lemma ColumnNamedBounds(name: string)
    ensures ColumnNamed(name).min.Some? <==> name !in StringWidths && name in BoundedNames
    ensures ColumnNamed(name).min.Some? ==> ColumnNamed(name).cls == Float64Col
    ensures ColumnNamed(name).max.Some? <==> ColumnNamed(name).min.Some?
    ensures ColumnNamed(name).min.Some? ==> ColumnNamed(name).dflt == FloatV(NaN) && ColumnNamed(name).shape == 0
  {
    if name !in StringWidths && name in BoundedNames {
      MissingSentinels(name, Float64Col, NoOptions.(min := Some(-BoundedNames[name]), max := Some(BoundedNames[name])));
    }
  }
}

/** Resolution of column groups from a flat file's header
    (smtk/gm_database.py:556-569, 581-597, 637-668): the spectral
    acceleration columns `sa(<period>)`, the event time column(s) and the
    PGA column with its unit. Text handling is ASCII: Python's Unicode
    case folding and whitespace are not modelled. */
module Headers {
  import opened Wrappers
  import opened Numbers
  import opened Text
  import Units

  /** Position of the last `c` in `s`. */
  function LastIndex(s: string, c: char): (r: Option<nat>)
    ensures r.Some? ==> r.value < |s| && s[r.value] == c
    ensures r.Some? ==> forall m :: r.value < m < |s| ==> s[m] != c
    ensures r.None? ==> forall m :: 0 <= m < |s| ==> s[m] != c
  {
    if |s| == 0 then None
    else if s[|s| - 1] == c then Some(|s| - 1)
    else LastIndex(s[..|s| - 1], c)
  }

  /** The regular expressions `^\s*sa\s*\((.*)\)\s*$` and
      `^\s*pga\s*\((.*)\)\s*$`, case-insensitive: the text between the
      parenthesis after `name` and the last `)`, which may be followed by
      whitespace only; the group cannot span a line break. */
  function MatchCall(name: string, s: string): (r: Option<string>)
    ensures r.Some? ==> |r.value| + |name| + 2 <= |s| && '\n' !in r.value
  {
    var i := SpaceEnd(s, 0);
    if i + |name| > |s| || LowerText(s[i..i + |name|]) != name then None
    else
      var k := SpaceEnd(s, i + |name|);
      if k >= |s| || s[k] != '(' then None
      else match LastIndex(s, ')')
        case None => None
        case Some(j) =>
          if j <= k || !SpacesIn(s, j + 1, |s|) || '\n' in s[k + 1..j] then None
          else Some(s[k + 1..j])
  }

  /** The header is, in order: whitespace up to `i`, `name` in any letter
      case, whitespace up to `k`, `(`, the argument, `)` at `j`,
      whitespace. */
  predicate CallAt(name: string, s: string, i: nat, k: nat, j: nat, arg: string) {
    && i + |name| <= k < j < |s|
    && SpacesIn(s, 0, i)
    && LowerText(s[i..i + |name|]) == name
    && SpacesIn(s, i + |name|, k)
    && s[k] == '(' && s[j] == ')'
    && SpacesIn(s, j + 1, |s|)
    && '\n' !in s[k + 1..j]
    && arg == s[k + 1..j]
  }

  ghost predicate IsCall(name: string, s: string, arg: string) {
    exists i: nat, k: nat, j: nat :: CallAt(name, s, i, k, j, arg)
  }

  /** A name the patterns use: lower-case ASCII letters. */
  predicate PlainName(name: string) {
    |name| > 0 && forall m :: 0 <= m < |name| ==> 'a' <= name[m] <= 'z'
  }

  /** A run of whitespace ending at a non-space is the one `SpaceEnd` finds. */
  lemma SpaceEndUnique(s: string, from: nat, n: nat)
    requires from <= n <= |s| && SpacesIn(s, from, n)
    requires n < |s| ==> !IsSpace(s[n])
    ensures SpaceEnd(s, from) == n
  {
  }

  /** Every header the matcher accepts has the shape `CallAt` describes. */
  lemma MatchCallSound(name: string, s: string)
    requires MatchCall(name, s).Some?
    ensures IsCall(name, s, MatchCall(name, s).value)
  {
    var i := SpaceEnd(s, 0);
    var k := SpaceEnd(s, i + |name|);
    var j := LastIndex(s, ')').value;
    assert CallAt(name, s, i, k, j, MatchCall(name, s).value);
  }

  /** Every header of that shape is accepted, with that argument. */
  lemma MatchCallComplete(name: string, s: string, arg: string)
    requires PlainName(name)
    requires IsCall(name, s, arg)
    ensures MatchCall(name, s) == Some(arg)
  {
    var i: nat, k: nat, j: nat :| CallAt(name, s, i, k, j, arg);
    assert s[i] == s[i..i + |name|][0];
    assert Lower(s[i]) == name[0];
    SpaceEndUnique(s, 0, i);
    SpaceEndUnique(s, i + |name|, k);
    assert LastIndex(s, ')') == Some(j);
    assert !(j <= k || !SpacesIn(s, j + 1, |s|) || '\n' in s[k + 1..j]);
  }

  /** The matcher finds exactly the headers of that shape, and their
      argument: the shape determines the argument uniquely. */
  lemma MatchCallSpec(name: string, s: string, arg: string)
    requires PlainName(name)
    ensures MatchCall(name, s) == Some(arg) <==> IsCall(name, s, arg)
  {
    if MatchCall(name, s) == Some(arg) {
      MatchCallSound(name, s);
    }
    if IsCall(name, s, arg) {
      MatchCallComplete(name, s, arg);
    }
  }

  /** A header without `(` is never a call. */
  lemma NoParenNoCall(name: string, s: string)
    requires '(' !in s
    ensures MatchCall(name, s).None?
  {
  }

  datatype HeaderError =
    | BadPeriod(header: string)
    | MissingTimePart(part: string)
    | UnknownUnit(header: string)
    | NoUnitColumn(pgaColumn: string)
    | NoPgaColumn
    | NoPgaAtAll

  /** The spectral columns and their periods. */
  datatype SaColumns = SaColumns(names: seq<string>, periods: seq<Float>)

  /** The headers that name a spectral acceleration, in order. */
  function SaHeaders(fieldnames: seq<string>): (hs: seq<string>)
    decreases |fieldnames|
  {
    if |fieldnames| == 0 then []
    else
      var hs := SaHeaders(fieldnames[..|fieldnames| - 1]);
      var f := fieldnames[|fieldnames| - 1];
      if MatchCall("sa", f).Some? then hs + [f] else hs
  }

  /** `_get_sa_columns`: every `sa(<period>)` header with its period read by
      `float` (the parameter `parseFloat`); an unreadable period raises. */
  function GetSaColumns(fieldnames: seq<string>, parseFloat: string -> Option<Float>): (r: Result<SaColumns, HeaderError>)
    ensures r.Success? ==> r.value.names == SaHeaders(fieldnames)
    ensures r.Success? ==> |r.value.periods| == |r.value.names|
    ensures r.Success? ==> forall m :: 0 <= m < |r.value.names| ==>
              MatchCall("sa", r.value.names[m]).Some? &&
              parseFloat(MatchCall("sa", r.value.names[m]).value) == Some(r.value.periods[m])
    ensures r.Failure? <==> exists m :: 0 <= m < |fieldnames| && MatchCall("sa", fieldnames[m]).Some? &&
                                        parseFloat(MatchCall("sa", fieldnames[m]).value).None?
    decreases |fieldnames|
  {
    if |fieldnames| == 0 then Success(SaColumns([], []))
    else
      var prefix := fieldnames[..|fieldnames| - 1];
      var f := fieldnames[|fieldnames| - 1];
      assert forall m :: 0 <= m < |prefix| ==> prefix[m] == fieldnames[m];
      var cols :- GetSaColumns(prefix, parseFloat);
      match MatchCall("sa", f)
      case None => Success(cols)
      case Some(arg) =>
        match parseFloat(arg)
        case None => Failure(BadPeriod(f))
        case Some(p) => Success(SaColumns(cols.names + [f], cols.periods + [p]))
  }

  /** Where the event time comes from: one ISO column, or year, month and
      day columns with optional hour, minute and second columns. */
  datatype EventTimeColumns =
    | OneColumn(name: string)
    | SixColumns(year: string, month: string, day: string,
                 hour: Option<string>, minute: Option<string>, second: Option<string>)

  /** `_event_time_colnames`. */
  const TimeParts: seq<string> := ["year", "month", "day", "hour", "minute", "second"]

  /** The loop of `_get_event_time_columns`: each header whose lower-case
      form is a part name takes that part's slot, later headers winning. */
  function TimeSlots(fieldnames: seq<string>): (slots: seq<Option<string>>)
    ensures |slots| == 6
    decreases |fieldnames|
  {
    if |fieldnames| == 0 then [None, None, None, None, None, None]
    else
      var slots := TimeSlots(fieldnames[..|fieldnames| - 1]);
      var f := fieldnames[|fieldnames| - 1];
      var low := LowerText(f);
      if low == "year" then slots[0 := Some(f)]
      else if low == "month" then slots[1 := Some(f)]
      else if low == "day" then slots[2 := Some(f)]
      else if low == "hour" then slots[3 := Some(f)]
      else if low == "minute" then slots[4 := Some(f)]
      else if low == "second" then slots[5 := Some(f)]
      else slots
  }

  /** The last header whose lower-case form is `part`. */
  function LastNamed(fieldnames: seq<string>, part: string): (r: Option<string>)
    ensures r.Some? ==> r.value in fieldnames && LowerText(r.value) == part
    ensures r.None? ==> forall m :: 0 <= m < |fieldnames| ==> LowerText(fieldnames[m]) != part
    decreases |fieldnames|
  {
    if |fieldnames| == 0 then None
    else if LowerText(fieldnames[|fieldnames| - 1]) == part then Some(fieldnames[|fieldnames| - 1])
    else
      var prefix := fieldnames[..|fieldnames| - 1];
      assert forall m :: 0 <= m < |prefix| ==> prefix[m] == fieldnames[m];
      LastNamed(prefix, part)
  }

  /** Each slot holds the last header naming that part, ignoring case. */
  lemma {:induction false} TimeSlotsAreLastNamed(fieldnames: seq<string>, p: nat)
    requires p < 6
    ensures TimeSlots(fieldnames)[p] == LastNamed(fieldnames, TimeParts[p])
    decreases |fieldnames|
  {
    if |fieldnames| > 0 {
      TimeSlotsAreLastNamed(fieldnames[..|fieldnames| - 1], p);
    }
  }

  /** `_get_event_time_columns(fieldnames, default)`. */
  function GetEventTimeColumns(fieldnames: seq<string>, default: string): (r: Result<EventTimeColumns, HeaderError>)
    ensures default in fieldnames ==> r == Success(OneColumn(default))
  {
    if default in fieldnames then Success(OneColumn(default))
    else
      var slots := TimeSlots(fieldnames);
      if slots[0].None? then Failure(MissingTimePart("year"))
      else if slots[1].None? then Failure(MissingTimePart("month"))
      else if slots[2].None? then Failure(MissingTimePart("day"))
      else Success(SixColumns(slots[0].value, slots[1].value, slots[2].value, slots[3], slots[4], slots[5]))
  }

  /** Without the default column, resolution succeeds exactly when year,
      month and day headers exist (in any letter case), and every slot is
      the last such header. */
  lemma EventTimeColumnsSpec(fieldnames: seq<string>, default: string)
    requires default !in fieldnames
    ensures GetEventTimeColumns(fieldnames, default).Success? <==>
              LastNamed(fieldnames, "year").Some? && LastNamed(fieldnames, "month").Some? && LastNamed(fieldnames, "day").Some?
    ensures GetEventTimeColumns(fieldnames, default).Success? ==>
              GetEventTimeColumns(fieldnames, default).value ==
                SixColumns(LastNamed(fieldnames, "year").value, LastNamed(fieldnames, "month").value,
                           LastNamed(fieldnames, "day").value, LastNamed(fieldnames, "hour"),
                           LastNamed(fieldnames, "minute"), LastNamed(fieldnames, "second"))
  {
    TimeSlotsAreLastNamed(fieldnames, 0);
    TimeSlotsAreLastNamed(fieldnames, 1);
    TimeSlotsAreLastNamed(fieldnames, 2);
    TimeSlotsAreLastNamed(fieldnames, 3);
    TimeSlotsAreLastNamed(fieldnames, 4);
    TimeSlotsAreLastNamed(fieldnames, 5);
  }

  /** `_accel_units`. */
  const AccelUnits: seq<string> := ["g", "m/s/s", "m/s**2", "m/s^2", "cm/s/s", "cm/s**2", "cm/s^2"]

  /** The accepted unit tokens are exactly those the conversion knows. */
  lemma AccelUnitsConvertible(unit: string)
    ensures unit in AccelUnits <==> Units.FamilyOf(unit).Some?
  {
  }

  /** Where the PGA and its unit come from: a `pga(<unit>)` header, or a
      `pga` header with an `acceleration_unit` header. */
  datatype PgaColumns = UnitInName(column: string, unit: string) | UnitColumn(column: string, unitColumn: string)

  predicate IsPlainPga(f: string) {
    LowerText(Strip(f)) == "pga"
  }

  predicate IsUnitHeader(f: string) {
    LowerText(Strip(f)) == "acceleration_unit"
  }

  /** The loop of `_get_pga_column`, carrying the first `pga` and the
      first `acceleration_unit` header seen so far. */
  function PgaScan(fieldnames: seq<string>, pga: Option<string>, unit: Option<string>): Result<PgaColumns, HeaderError>
    decreases |fieldnames|
  {
    if |fieldnames| == 0 then
      if pga.Some? && unit.None? then Failure(NoUnitColumn(pga.value))
      else if pga.None? && unit.Some? then Failure(NoPgaColumn)
      else if pga.Some? && unit.Some? then Success(UnitColumn(pga.value, unit.value))
      else Failure(NoPgaAtAll)
    else
      var f := fieldnames[0];
      if pga.None? && IsPlainPga(f) then PgaScan(fieldnames[1..], Some(f), unit)
      else if unit.None? && IsUnitHeader(f) then PgaScan(fieldnames[1..], pga, Some(f))
      else match MatchCall("pga", f)
        case Some(u) => if u in AccelUnits then Success(UnitInName(f, u)) else Failure(UnknownUnit(f))
        case None => PgaScan(fieldnames[1..], pga, unit)
  }

  /** `_get_pga_column`. */
  function GetPgaColumn(fieldnames: seq<string>): (r: Result<PgaColumns, HeaderError>)
    ensures FirstPgaCall(fieldnames).Some? ==>
              var k := FirstPgaCall(fieldnames).value;
              var u := MatchCall("pga", fieldnames[k]).value;
              r == if u in AccelUnits then Success(UnitInName(fieldnames[k], u)) else Failure(UnknownUnit(fieldnames[k]))
    ensures FirstPgaCall(fieldnames).None? ==>
              var p := FirstHeader(fieldnames, false);
              var a := FirstHeader(fieldnames, true);
              r == if p.Some? && a.Some? then Success(UnitColumn(p.value, a.value))
                   else if p.Some? then Failure(NoUnitColumn(p.value))
                   else if a.Some? then Failure(NoPgaColumn)
                   else Failure(NoPgaAtAll)
  {
    PgaScanSpec(fieldnames, None, None);
    PgaScan(fieldnames, None, None)
  }

  /** First header that is a PGA call `pga(...)`. */
  function FirstPgaCall(fieldnames: seq<string>): (r: Option<nat>)
    ensures r.Some? ==> r.value < |fieldnames| && MatchCall("pga", fieldnames[r.value]).Some?
    ensures r.Some? ==> forall m :: 0 <= m < r.value ==> MatchCall("pga", fieldnames[m]).None?
    ensures r.None? ==> forall m :: 0 <= m < |fieldnames| ==> MatchCall("pga", fieldnames[m]).None?
    decreases |fieldnames|
  {
    if |fieldnames| == 0 then None
    else if MatchCall("pga", fieldnames[0]).Some? then Some(0)
    else match FirstPgaCall(fieldnames[1..])
      case None => None
      case Some(m) => Some(m + 1)
  }

  /** First header satisfying `IsPlainPga` (`unit`: `IsUnitHeader`). */
  function FirstHeader(fieldnames: seq<string>, unit: bool): (r: Option<string>)
    ensures r.Some? ==> r.value in fieldnames && (if unit then IsUnitHeader(r.value) else IsPlainPga(r.value))
    ensures r.None? ==> forall m :: 0 <= m < |fieldnames| ==> !(if unit then IsUnitHeader(fieldnames[m]) else IsPlainPga(fieldnames[m]))
    decreases |fieldnames|
  {
    if |fieldnames| == 0 then None
    else if (if unit then IsUnitHeader(fieldnames[0]) else IsPlainPga(fieldnames[0])) then Some(fieldnames[0])
    else FirstHeader(fieldnames[1..], unit)
  }

  /** Stripped and lower-cased, a header containing `(` still contains it. */
  lemma ParenSurvives(f: string)
    requires '(' in f
    ensures '(' in LowerText(Strip(f))
    decreases |f|
  {
    if |f| > 0 && IsSpace(f[0]) {
      assert '(' in f[1..] by {
        var m :| 0 <= m < |f| && f[m] == '(';
        assert m > 0;
        assert f[1..][m - 1] == '(';
      }
      ParenSurvives(f[1..]);
    } else if |f| > 0 && IsSpace(f[|f| - 1]) {
      assert '(' in f[..|f| - 1] by {
        var m :| 0 <= m < |f| && f[m] == '(';
        assert m < |f| - 1;
        assert f[..|f| - 1][m] == '(';
      }
      ParenSurvives(f[..|f| - 1]);
    } else {
      var m :| 0 <= m < |f| && f[m] == '(';
      assert LowerText(f)[m] == '(';
    }
  }

  /** A plain `pga` or `acceleration_unit` header is never a PGA call. */
  lemma PlainHeadersAreNotCalls(f: string)
    requires IsPlainPga(f) || IsUnitHeader(f)
    ensures MatchCall("pga", f).None?
  {
    if '(' in f {
      ParenSurvives(f);
      assert false;
    }
    NoParenNoCall("pga", f);
  }

  /** The first `pga(<unit>)` header decides, whatever comes before or
      after it: its unit must be an accepted token. Only without such a
      header do the first `pga` and the first `acceleration_unit` headers
      count, and both must be present. */
  lemma {:induction false} PgaScanSpec(fieldnames: seq<string>, pga: Option<string>, unit: Option<string>)
    ensures var r := PgaScan(fieldnames, pga, unit);
            match FirstPgaCall(fieldnames)
            case Some(k) =>
              var u := MatchCall("pga", fieldnames[k]).value;
              r == (if u in AccelUnits then Success(UnitInName(fieldnames[k], u)) else Failure(UnknownUnit(fieldnames[k])))
            case None =>
              var p := if pga.Some? then pga else FirstHeader(fieldnames, false);
              var a := if unit.Some? then unit else FirstHeader(fieldnames, true);
              r == (if p.Some? && a.Some? then Success(UnitColumn(p.value, a.value))
                    else if p.Some? then Failure(NoUnitColumn(p.value))
                    else if a.Some? then Failure(NoPgaColumn)
                    else Failure(NoPgaAtAll))
    decreases |fieldnames|
  {
    if |fieldnames| > 0 {
      var f := fieldnames[0];
      if pga.None? && IsPlainPga(f) {
        PlainHeadersAreNotCalls(f);
        PgaScanSpec(fieldnames[1..], Some(f), unit);
      } else if unit.None? && IsUnitHeader(f) {
        PlainHeadersAreNotCalls(f);
        PgaScanSpec(fieldnames[1..], pga, Some(f));
      } else if MatchCall("pga", f).None? {
        PgaScanSpec(fieldnames[1..], pga, unit);
      }
    }
  }
}

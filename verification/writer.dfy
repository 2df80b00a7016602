/** Writing one flat-file row into the typed table (`_writerow`,
    smtk/gm_database.py:703-750) and the statistics of a whole parse
    (`parse`, smtk/gm_database.py:319-382).

    Assigning a value to a typed cell is numpy/pytables casting; it is the
    parameter `cast`, which yields `None` where the assignment raises
    ValueError or TypeError. */
module Writer {
  import opened Wrappers
  import opened Numbers
  import opened Schema
  import opened Identity

  /** A cell of an input row: CSV text, or what the pre-processing put
      there (a PGA value, a spectral-acceleration vector). */
  datatype Raw = RawText(s: string) | RawFloat(f: Float) | RawFloats(xs: seq<Float>)

  type Row = map<string, Raw>

  /** The elements a bound is compared with (`np.asarray(value)`). */
  function Elements(v: Value): (xs: seq<Float>)
    ensures v.FloatV? ==> xs == [v.f]
    ensures v.VecV? ==> xs == v.xs
    ensures v.StrV? ==> xs == []
  {
    match v
    case FloatV(f) => [f]
    case IntV(i) => [Fin(i as real)]
    case BoolV(b) => [Fin(if b then 1.0 else 0.0)]
    case VecV(xs) => xs
    case StrV(_) => []
  }

  /** `(np.asarray(value) < bound).any()`. */
  predicate AnyBelow(v: Value, bound: real) {
    exists k :: 0 <= k < |Elements(v)| && Below(Elements(v)[k], bound)
  }

  /** `(np.asarray(value) > bound).any()`. */
  predicate AnyAbove(v: Value, bound: real) {
    exists k :: 0 <= k < |Elements(v)| && Above(Elements(v)[k], bound)
  }

  /** Comparing text with a numeric bound (`np.asarray(value) < bound` on a
      string cell) raises TypeError, which the loop's `except` turns into a
      missing column: this happens for a text value in any column that
      carries a bound. */
  predicate RaisesOnCompare(col: ColumnSpec, v: Value) {
    v.StrV? && (col.min.Some? || col.max.Some?)
  }

  /** A value some element of which lies strictly outside the column's
      bounds. */
  predicate OutsideBounds(col: ColumnSpec, v: Value) {
    || (col.min.Some? && AnyBelow(v, col.min.value))
    || (col.max.Some? && AnyAbove(v, col.max.value))
  }

  /** A float column's sentinel is NaN in every element (one element for
      a scalar, `shape` for a vector), so it never lies outside any bounds
      the column carries. */
  lemma SentinelWithinBounds(col: ColumnSpec)
    requires col.dflt == FloatV(NaN)
    ensures |Elements(Sentinel(col))| == if col.shape > 0 then col.shape else 1
    ensures forall k :: 0 <= k < |Elements(Sentinel(col))| ==> Elements(Sentinel(col))[k].NaN?
    ensures !OutsideBounds(col, Sentinel(col))
  {
  }

  /** What happens to one column: the value stored, and whether the column
      is reported missing or out of bound. */
  datatype Cell = Cell(stored: Value, missing: bool, outOfBound: bool)

  /** One iteration of the loop of `_writerow`. A fresh pytables row holds
      every column's default, so a column that is absent or fails to cast
      keeps its sentinel. A text value in a bounded column has already been
      assigned when the comparison raises, so it stays stored although the
      column is reported missing. */
  function WriteCell(col: ColumnSpec, row: Row, cast: (ColumnSpec, Raw) -> Option<Value>): (c: Cell)
    ensures !(c.missing && c.outOfBound)
    ensures c.missing <==> col.name !in row || cast(col, row[col.name]).None? ||
                           RaisesOnCompare(col, cast(col, row[col.name]).value)
    ensures c.outOfBound <==> !c.missing && OutsideBounds(col, cast(col, row[col.name]).value)
    ensures col.name !in row || cast(col, row[col.name]).None? || c.outOfBound ==> c.stored == Sentinel(col)
    ensures col.name in row && cast(col, row[col.name]).Some? && !c.outOfBound ==>
              c.stored == cast(col, row[col.name]).value
  {
    if col.name !in row then Cell(Sentinel(col), true, false)
    else match cast(col, row[col.name])
      case None => Cell(Sentinel(col), true, false)
      case Some(v) =>
        if RaisesOnCompare(col, v) then Cell(v, true, false)
        else if col.min.Some? && AnyBelow(v, col.min.value) then Cell(Sentinel(col), false, true)
        else if col.max.Some? && AnyAbove(v, col.max.value) then Cell(Sentinel(col), false, true)
        else Cell(v, false, false)
  }

  /** Bounds are inclusive: a value every element of which lies within
      `[min, max]` (or is NaN) is stored as cast, and reported missing only
      when it is text compared with a bound. */
  lemma BoundsInclusive(col: ColumnSpec, row: Row, cast: (ColumnSpec, Raw) -> Option<Value>)
    requires col.name in row && cast(col, row[col.name]).Some?
    requires forall k :: 0 <= k < |Elements(cast(col, row[col.name]).value)| ==>
               var x := Elements(cast(col, row[col.name]).value)[k];
               x.NaN? || (x.Fin? && (col.min.Some? ==> col.min.value <= x.x) && (col.max.Some? ==> x.x <= col.max.value))
    ensures WriteCell(col, row, cast) ==
              Cell(cast(col, row[col.name]).value, RaisesOnCompare(col, cast(col, row[col.name]).value), false)
  {
  }

  /** A single element outside the bounds resets the whole cell (all the
      elements of a vector) to the sentinel. */
  lemma OneElementResetsCell(col: ColumnSpec, row: Row, cast: (ColumnSpec, Raw) -> Option<Value>, k: nat)
    requires col.name in row && cast(col, row[col.name]).Some?
    requires k < |Elements(cast(col, row[col.name]).value)|
    requires col.max.Some? && Above(Elements(cast(col, row[col.name]).value)[k], col.max.value)
    ensures WriteCell(col, row, cast) == Cell(Sentinel(col), false, true)
  {
  }

  /** The table row after the column loop, with the two reported lists in
      column order. */
  datatype Written = Written(stored: map<string, Value>, missing: seq<string>, outOfBound: seq<string>)

  predicate NoDuplicates(xs: seq<string>) {
    forall i, j :: 0 <= i < j < |xs| ==> xs[i] != xs[j]
  }

  /** The column loop of `_writerow`, over the columns in table order. */
  function WriteColumns(schema: seq<ColumnSpec>, row: Row, cast: (ColumnSpec, Raw) -> Option<Value>): (w: Written)
    ensures forall c :: c in w.stored <==> c in Names(schema)
    ensures forall c :: c in w.missing ==> c in Names(schema)
    ensures forall c :: c in w.outOfBound ==> c in Names(schema)
    decreases |schema|
  {
    if |schema| == 0 then Written(map[], [], [])
    else
      var w := WriteColumns(schema[..|schema| - 1], row, cast);
      var col := schema[|schema| - 1];
      var c := WriteCell(col, row, cast);
      Written(w.stored[col.name := c.stored],
              w.missing + (if c.missing then [col.name] else []),
              w.outOfBound + (if c.outOfBound then [col.name] else []))
  }

  /** What is stored under a column's name, and whether it is listed
      missing or out of bound, is decided by that column's own cell. */
  lemma {:induction false} WriteColumnsAt(schema: seq<ColumnSpec>, row: Row, cast: (ColumnSpec, Raw) -> Option<Value>, i: nat)
    requires DistinctNames(schema)
    requires i < |schema|
    ensures var w := WriteColumns(schema, row, cast);
            var c := WriteCell(schema[i], row, cast);
            && (schema[i].name in w.missing <==> c.missing)
            && (schema[i].name in w.outOfBound <==> c.outOfBound)
            && w.stored[schema[i].name] == c.stored
    decreases |schema|
  {
    var prefix := schema[..|schema| - 1];
    var col := schema[|schema| - 1];
    if i < |schema| - 1 {
      assert prefix[i] == schema[i];
      assert schema[i].name != col.name;
      assert DistinctNames(prefix);
      WriteColumnsAt(prefix, row, cast, i);
    } else {
      LastNameFresh(schema);
    }
  }

  /** With distinct names, the last column's name is not among the others. */
  lemma LastNameFresh(schema: seq<ColumnSpec>)
    requires DistinctNames(schema) && |schema| > 0
    ensures schema[|schema| - 1].name !in Names(schema[..|schema| - 1])
  {
    var prefix := schema[..|schema| - 1];
    forall i | 0 <= i < |prefix|
      ensures prefix[i].name != schema[|schema| - 1].name
    {
      assert prefix[i] == schema[i];
    }
  }

  /** Each column lands in at most one of the two lists, at most once. */
  lemma {:induction false} WriteColumnsLists(schema: seq<ColumnSpec>, row: Row, cast: (ColumnSpec, Raw) -> Option<Value>)
    requires DistinctNames(schema)
    ensures var w := WriteColumns(schema, row, cast);
            && NoDuplicates(w.missing)
            && NoDuplicates(w.outOfBound)
            && forall c :: !(c in w.missing && c in w.outOfBound)
    decreases |schema|
  {
    if |schema| > 0 {
      var prefix := schema[..|schema| - 1];
      assert DistinctNames(prefix);
      WriteColumnsLists(prefix, row, cast);
      LastNameFresh(schema);
    }
  }

  /** A written row: the stored cells (ids included) and the two lists. */
  datatype RowReport = RowReport(stored: map<string, Value>, missing: seq<string>, outOfBound: seq<string>)

  /** `_writerow`: the column loop, then the three id columns overwritten
      with digests of the stored row. Raises (KeyError, TypeError,
      OverflowError) where `get_ids` does, or where the table lacks an id
      column. */
  function WriteRow(schema: seq<ColumnSpec>, row: Row, dbname: string,
                    cast: (ColumnSpec, Raw) -> Option<Value>, sha1: string -> string): (r: Result<RowReport, IdError>)
    ensures r.Success? <==>
              && GetIds(WriteColumns(schema, row, cast).stored, dbname, sha1).Success?
              && "event_id" in Names(schema) && "station_id" in Names(schema) && "record_id" in Names(schema)
    ensures r.Success? ==>
              && r.value.missing == WriteColumns(schema, row, cast).missing
              && r.value.outOfBound == WriteColumns(schema, row, cast).outOfBound
              && forall c :: c in r.value.stored <==> c in Names(schema)
  {
    var w := WriteColumns(schema, row, cast);
    var ids :- GetIds(w.stored, dbname, sha1);
    if "event_id" !in w.stored then Failure(NoSuchColumn("event_id"))
    else if "station_id" !in w.stored then Failure(NoSuchColumn("station_id"))
    else if "record_id" !in w.stored then Failure(NoSuchColumn("record_id"))
    else Success(RowReport(StampIds(w.stored, ids), w.missing, w.outOfBound))
  }

  predicate IsIdColumn(c: string) {
    c == "event_id" || c == "station_id" || c == "record_id"
  }

  /** The three assignments after the column loop: the id columns hold the
      digests and nothing else changes. */
  function StampIds(stored: map<string, Value>, ids: Ids): (out: map<string, Value>)
    requires "event_id" in stored && "station_id" in stored && "record_id" in stored
    ensures forall c :: c in out <==> c in stored
    ensures out["event_id"] == StrV(ids.eventId)
    ensures out["station_id"] == StrV(ids.stationId)
    ensures out["record_id"] == StrV(ids.recordId)
    ensures forall c :: c in stored && !IsIdColumn(c) ==> out[c] == stored[c]
  {
    stored["event_id" := StrV(ids.eventId)]["station_id" := StrV(ids.stationId)]["record_id" := StrV(ids.recordId)]
  }

  /** Id values supplied by the input row are ignored: two rows that agree
      on every other column are written identically. */
  lemma CallerIdsIgnored(schema: seq<ColumnSpec>, r1: Row, r2: Row, dbname: string,
                         cast: (ColumnSpec, Raw) -> Option<Value>, sha1: string -> string)
    requires DistinctNames(schema)
    requires forall c :: !IsIdColumn(c) ==> AgreeOn(r1, r2, c)
    ensures WriteRow(schema, r1, dbname, cast, sha1).Success? <==> WriteRow(schema, r2, dbname, cast, sha1).Success?
    ensures WriteRow(schema, r1, dbname, cast, sha1).Success? ==>
              WriteRow(schema, r1, dbname, cast, sha1).value.stored == WriteRow(schema, r2, dbname, cast, sha1).value.stored
  {
    var w1 := WriteColumns(schema, r1, cast).stored;
    var w2 := WriteColumns(schema, r2, cast).stored;
    StoredAgree(schema, r1, r2, cast);
    IdsReadOnlyIdFields(w1, w2, dbname, sha1);
    if WriteRow(schema, r1, dbname, cast, sha1).Success? {
      var ids := GetIds(w1, dbname, sha1).value;
      WriteRowStored(schema, r1, dbname, cast, sha1);
      WriteRowStored(schema, r2, dbname, cast, sha1);
      StampIdsAgree(w1, w2, ids);
    }
  }

  lemma WriteRowStored(schema: seq<ColumnSpec>, row: Row, dbname: string,
                       cast: (ColumnSpec, Raw) -> Option<Value>, sha1: string -> string)
    requires WriteRow(schema, row, dbname, cast, sha1).Success?
    ensures var w := WriteColumns(schema, row, cast).stored;
            "event_id" in w && "station_id" in w && "record_id" in w &&
            WriteRow(schema, row, dbname, cast, sha1).value.stored == StampIds(w, GetIds(w, dbname, sha1).value)
  {
  }

  lemma StoredAgree(schema: seq<ColumnSpec>, r1: Row, r2: Row, cast: (ColumnSpec, Raw) -> Option<Value>)
    requires DistinctNames(schema)
    requires forall c :: !IsIdColumn(c) ==> AgreeOn(r1, r2, c)
    ensures forall c :: !IsIdColumn(c) ==> AgreeOn(WriteColumns(schema, r1, cast).stored, WriteColumns(schema, r2, cast).stored, c)
  {
    var w1 := WriteColumns(schema, r1, cast).stored;
    var w2 := WriteColumns(schema, r2, cast).stored;
    forall c | !IsIdColumn(c)
      ensures AgreeOn(w1, w2, c)
    {
      if c in Names(schema) {
        var i :| 0 <= i < |schema| && Names(schema)[i] == c;
        WriteColumnsAt(schema, r1, cast, i);
        WriteColumnsAt(schema, r2, cast, i);
        assert AgreeOn(r1, r2, schema[i].name);
        assert WriteCell(schema[i], r1, cast) == WriteCell(schema[i], r2, cast);
      }
    }
  }

  lemma StampIdsAgree(w1: map<string, Value>, w2: map<string, Value>, ids: Ids)
    requires "event_id" in w1 && "station_id" in w1 && "record_id" in w1
    requires "event_id" in w2 && "station_id" in w2 && "record_id" in w2
    requires forall c :: !IsIdColumn(c) ==> AgreeOn(w1, w2, c)
    ensures StampIds(w1, ids) == StampIds(w2, ids)
  {
    var o1 := StampIds(w1, ids);
    var o2 := StampIds(w2, ids);
    assert forall c :: c in o1 <==> c in o2 by {
      forall c
        ensures c in o1 <==> c in o2
      {
        if !IsIdColumn(c) {
          assert AgreeOn(w1, w2, c);
        }
      }
    }
    assert forall c :: c in o1 ==> o1[c] == o2[c] by {
      forall c | c in o1
        ensures o1[c] == o2[c]
      {
        if !IsIdColumn(c) {
          assert AgreeOn(w1, w2, c);
        }
      }
    }
    assert o1.Keys == o2.Keys;
  }

  /** A column absent from the input row is reported missing and holds
      its sentinel; in particular the id columns are reported missing for
      every row that does not supply them, though they end up filled. */
  lemma AbsentColumnMissing(schema: seq<ColumnSpec>, row: Row, cast: (ColumnSpec, Raw) -> Option<Value>, i: nat)
    requires DistinctNames(schema)
    requires i < |schema| && schema[i].name !in row
    ensures schema[i].name in WriteColumns(schema, row, cast).missing
    ensures schema[i].name !in WriteColumns(schema, row, cast).outOfBound
    ensures WriteColumns(schema, row, cast).stored[schema[i].name] == Sentinel(schema[i])
  {
    WriteColumnsAt(schema, row, cast, i);
  }

  /** A text value for a column that carries a bound makes the bound
      comparison raise: the column is reported missing, not out of bound,
      and keeps the text assigned just before the comparison. */
  lemma BoundedTextReportedMissing(schema: seq<ColumnSpec>, row: Row, cast: (ColumnSpec, Raw) -> Option<Value>, i: nat)
    requires DistinctNames(schema)
    requires i < |schema| && schema[i].name in row
    requires schema[i].min.Some? || schema[i].max.Some?
    requires cast(schema[i], row[schema[i].name]).Some? && cast(schema[i], row[schema[i].name]).value.StrV?
    ensures schema[i].name in WriteColumns(schema, row, cast).missing
    ensures schema[i].name !in WriteColumns(schema, row, cast).outOfBound
    ensures WriteColumns(schema, row, cast).stored[schema[i].name] == cast(schema[i], row[schema[i].name]).value
  {
    WriteColumnsAt(schema, row, cast, i);
  }

  /** No stored value lies outside its column's bounds when every bounded
      column is a scalar whose sentinel is NaN: out-of-bound values are
      replaced by NaN, which compares false with either bound (text kept
      after a raising comparison has no elements to compare). */
  lemma StoredWithinBounds(schema: seq<ColumnSpec>, row: Row, cast: (ColumnSpec, Raw) -> Option<Value>, i: nat)
    requires DistinctNames(schema)
    requires i < |schema|
    requires schema[i].min.Some? || schema[i].max.Some? ==> schema[i].dflt == FloatV(NaN) && schema[i].shape == 0
    ensures !OutsideBounds(schema[i], WriteColumns(schema, row, cast).stored[schema[i].name])
  {
    WriteColumnsAt(schema, row, cast, i);
    var c := WriteCell(schema[i], row, cast);
    if (schema[i].min.Some? || schema[i].max.Some?) && (c.missing || c.outOfBound) && !c.stored.StrV? {
      assert Elements(c.stored) == [NaN];
    }
  }

  /** In particular in the declared table the coordinates always lie
      within their bounds or are NaN. */
  lemma GmTableStoredWithinBounds(row: Row, cast: (ColumnSpec, Raw) -> Option<Value>, i: nat)
    requires i < ColumnCount
    ensures !OutsideBounds(ColumnNamed(ColumnName(i)), WriteColumns(GmTable(), row, cast).stored[ColumnName(i)])
  {
    GmTableWellFormed();
    ColumnNamedBounds(ColumnName(i));
    StoredWithinBounds(GmTable(), row, cast, i);
  }

  /** The statistics `parse` returns. Counts are `defaultdict(int)`s: a
      column never counted is absent. */
  datatype Stats = Stats(total: nat, errors: seq<nat>, missing: map<string, nat>, outOfBound: map<string, nat>)

  function Count(m: map<string, nat>, c: string): nat {
    if c in m then m[c] else 0
  }

  /** `written`, computed as `parse` does: total minus the error rows. */
  function WrittenCount(s: Stats): int {
    s.total - |s.errors|
  }

  /** One increment of each listed column. */
  function Tally(m: map<string, nat>, cols: seq<string>): (r: map<string, nat>)
    ensures r.Keys == m.Keys + set i | 0 <= i < |cols| :: cols[i]
    decreases |cols|
  {
    if |cols| == 0 then m
    else Tally(m[cols[0] := Count(m, cols[0]) + 1], cols[1..])
  }

  lemma {:induction false} TallyCount(m: map<string, nat>, cols: seq<string>, c: string)
    requires NoDuplicates(cols)
    ensures Count(Tally(m, cols), c) == Count(m, c) + (if c in cols then 1 else 0)
    ensures c in Tally(m, cols) <==> c in m || c in cols
    decreases |cols|
  {
    if |cols| > 0 {
      assert NoDuplicates(cols[1..]) by {
        forall i, j | 0 <= i < j < |cols[1..]|
          ensures cols[1..][i] != cols[1..][j]
        {
          assert cols[1..][i] == cols[i + 1] && cols[1..][j] == cols[j + 1];
        }
      }
      TallyCount(m[cols[0] := Count(m, cols[0]) + 1], cols[1..], c);
      assert c in cols <==> c == cols[0] || c in cols[1..];
      if c == cols[0] {
        assert c !in cols[1..] by {
          forall k | 0 <= k < |cols[1..]|
            ensures cols[1..][k] != c
          {
            assert cols[1..][k] == cols[k + 1];
          }
        }
      }
    }
  }

  /** The loop of `parse` over the rows `_rows` yields, with `_writerow`
      as the parameter `write`. An empty row is one the sanity check
      dropped: its position goes to the error list. A row that makes
      `write` raise aborts the whole parse. */
  function ParseWith(rows: seq<Row>, write: Row -> Result<RowReport, IdError>): (r: Result<Stats, IdError>)
    ensures r.Success? ==> r.value.total == |rows|
    decreases |rows|
  {
    if |rows| == 0 then Success(Stats(0, [], map[], map[]))
    else
      var s :- ParseWith(rows[..|rows| - 1], write);
      var last := rows[|rows| - 1];
      if |last| == 0 then Success(s.(total := s.total + 1, errors := s.errors + [s.total]))
      else
        var w :- write(last);
        Success(Stats(s.total + 1, s.errors, Tally(s.missing, w.missing), Tally(s.outOfBound, w.outOfBound)))
  }

  /** `parse` on the rows of one flat file into a table `schema`, the
      group being named `dbname`. */
  function ParseRows(schema: seq<ColumnSpec>, rows: seq<Row>, dbname: string,
                     cast: (ColumnSpec, Raw) -> Option<Value>, sha1: string -> string): (r: Result<Stats, IdError>)
    ensures r.Success? ==> r.value.total == |rows|
    ensures r.Success? <==> forall k :: 0 <= k < |rows| && |rows[k]| > 0 ==>
                              WriteRow(schema, rows[k], dbname, cast, sha1).Success?
  {
    var write := row => WriteRow(schema, row, dbname, cast, sha1);
    ParseWithFails(rows, write);
    ParseWith(rows, write)
  }

  /** The parse fails exactly when some non-dropped row fails to write. */
  lemma {:induction false} ParseWithFails(rows: seq<Row>, write: Row -> Result<RowReport, IdError>)
    ensures ParseWith(rows, write).Success? <==>
              forall k :: 0 <= k < |rows| && |rows[k]| > 0 ==> write(rows[k]).Success?
    decreases |rows|
  {
    if |rows| > 0 {
      var prefix := rows[..|rows| - 1];
      ParseWithFails(prefix, write);
      assert forall k :: 0 <= k < |prefix| ==> prefix[k] == rows[k];
    }
  }

  /** The error list holds, in increasing order, exactly the positions of
      the dropped rows. */
  lemma {:induction false} ParseWithErrors(rows: seq<Row>, write: Row -> Result<RowReport, IdError>)
    requires ParseWith(rows, write).Success?
    ensures var s := ParseWith(rows, write).value;
            && (forall i, j :: 0 <= i < j < |s.errors| ==> s.errors[i] < s.errors[j])
            && (forall k: nat :: k in s.errors <==> k < |rows| && |rows[k]| == 0)
            && |s.errors| <= s.total
    decreases |rows|
  {
    if |rows| > 0 {
      var prefix := rows[..|rows| - 1];
      ParseWithErrors(prefix, write);
      var p := ParseWith(prefix, write).value;
      var s := ParseWith(rows, write).value;
      if |rows[|rows| - 1]| == 0 {
        assert s.errors == p.errors + [|prefix|];
        forall i | 0 <= i < |p.errors|
          ensures p.errors[i] < |prefix|
        {
          assert p.errors[i] in p.errors;
        }
      } else {
        assert s.errors == p.errors;
      }
      forall k: nat
        ensures k in s.errors <==> k < |rows| && |rows[k]| == 0
      {
        if k < |rows| - 1 {
          assert rows[k] == prefix[k];
        }
      }
    }
  }

  /** Number of written rows whose report lists column `c` as missing
      (`outOfBound`: as out of bound), counted row by row. */
  function RowsFlagging(rows: seq<Row>, write: Row -> Result<RowReport, IdError>, c: string, outOfBound: bool): nat
    decreases |rows|
  {
    if |rows| == 0 then 0
    else
      var last := rows[|rows| - 1];
      var flagged := |last| > 0 && write(last).Success? &&
                     c in (if outOfBound then write(last).value.outOfBound else write(last).value.missing);
      RowsFlagging(rows[..|rows| - 1], write, c, outOfBound) + (if flagged then 1 else 0)
  }

  /** Number of rows that are written (not dropped). */
  function NonEmptyRows(rows: seq<Row>): (n: nat)
    ensures n <= |rows|
    decreases |rows|
  {
    if |rows| == 0 then 0
    else NonEmptyRows(rows[..|rows| - 1]) + (if |rows[|rows| - 1]| > 0 then 1 else 0)
  }

  /** Reports list each column at most once, and never in both lists. */
  ghost predicate ReportsWellFormed(write: Row -> Result<RowReport, IdError>) {
    forall row :: write(row).Success? ==>
      && NoDuplicates(write(row).value.missing)
      && NoDuplicates(write(row).value.outOfBound)
      && forall c :: !(c in write(row).value.missing && c in write(row).value.outOfBound)
  }

  /** The returned counts are per-row tallies: `missing_values[c]` is the
      number of written rows that reported `c` missing, likewise for
      out-of-bound values, a column appears only with a positive count, and
      `written` is the number of rows not dropped. */
  lemma {:induction false} ParseWithCounts(rows: seq<Row>, write: Row -> Result<RowReport, IdError>, c: string)
    requires ReportsWellFormed(write)
    requires ParseWith(rows, write).Success?
    ensures var s := ParseWith(rows, write).value;
            && Count(s.missing, c) == RowsFlagging(rows, write, c, false)
            && Count(s.outOfBound, c) == RowsFlagging(rows, write, c, true)
            && WrittenCount(s) == NonEmptyRows(rows)
            && (c in s.missing ==> Count(s.missing, c) >= 1)
            && (c in s.outOfBound ==> Count(s.outOfBound, c) >= 1)
    decreases |rows|
  {
    if |rows| > 0 {
      var prefix := rows[..|rows| - 1];
      ParseWithCounts(prefix, write, c);
      var last := rows[|rows| - 1];
      if |last| > 0 {
        var p := ParseWith(prefix, write).value;
        var w := write(last).value;
        TallyCount(p.missing, w.missing, c);
        TallyCount(p.outOfBound, w.outOfBound, c);
      }
    }
  }

  /** Per column, missing plus out-of-bound never exceeds the rows written. */
  lemma {:induction false} FlagsWithinWritten(rows: seq<Row>, write: Row -> Result<RowReport, IdError>, c: string)
    requires ReportsWellFormed(write)
    ensures RowsFlagging(rows, write, c, false) + RowsFlagging(rows, write, c, true) <= NonEmptyRows(rows)
    decreases |rows|
  {
    if |rows| > 0 {
      FlagsWithinWritten(rows[..|rows| - 1], write, c);
    }
  }

  /** `_writerow` on a table with distinct column names reports each column
      at most once. */
  lemma WriteRowReportsWellFormed(schema: seq<ColumnSpec>, dbname: string,
                                  cast: (ColumnSpec, Raw) -> Option<Value>, sha1: string -> string)
    requires DistinctNames(schema)
    ensures ReportsWellFormed(row => WriteRow(schema, row, dbname, cast, sha1))
  {
    forall row | WriteRow(schema, row, dbname, cast, sha1).Success?
      ensures && NoDuplicates(WriteRow(schema, row, dbname, cast, sha1).value.missing)
              && NoDuplicates(WriteRow(schema, row, dbname, cast, sha1).value.outOfBound)
              && forall c :: !(c in WriteRow(schema, row, dbname, cast, sha1).value.missing &&
                               c in WriteRow(schema, row, dbname, cast, sha1).value.outOfBound)
    {
      WriteColumnsLists(schema, row, cast);
    }
  }

  /** A table column that no row supplies is counted missing once per
      written row: its count equals `written`, which is `total` only when
      no row was dropped. */
  lemma {:induction false} AbsentEverywhere(schema: seq<ColumnSpec>, rows: seq<Row>, dbname: string,
                                            cast: (ColumnSpec, Raw) -> Option<Value>, sha1: string -> string, i: nat)
    requires DistinctNames(schema)
    requires i < |schema|
    requires forall k :: 0 <= k < |rows| ==> schema[i].name !in rows[k]
    requires ParseWith(rows, row => WriteRow(schema, row, dbname, cast, sha1)).Success?
    ensures RowsFlagging(rows, row => WriteRow(schema, row, dbname, cast, sha1), schema[i].name, false) == NonEmptyRows(rows)
    decreases |rows|
  {
    if |rows| > 0 {
      var write := row => WriteRow(schema, row, dbname, cast, sha1);
      var prefix := rows[..|rows| - 1];
      assert forall k :: 0 <= k < |prefix| ==> prefix[k] == rows[k];
      AbsentEverywhere(schema, prefix, dbname, cast, sha1, i);
      var last := rows[|rows| - 1];
      if |last| > 0 {
        AbsentColumnMissing(schema, last, cast, i);
      }
    }
  }
}

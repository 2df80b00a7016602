/** Content-derived identifiers of events, stations and records
    (smtk/gm_database.py:752-801). Selected fields are quantised, written out
    as text, joined with '/' and digested. The digest (SHA-1 in the source)
    is a parameter: any deterministic function of the joined text. */
module Identity {
  import opened Wrappers
  import opened Numbers
  import opened Schema

  /** What `_toint` returns: NaN passed through, or an integer. */
  datatype Quantum = QNaN | QInt(n: int)

  /** Why identifier computation raised: the row has no such column
      (KeyError), the cell is not a number (TypeError), or the number is
      infinite and `int(round(...))` overflows (OverflowError). */
  datatype IdError = NoSuchColumn(column: string) | NotANumber(column: string) | Infinite(column: string)

  /** `_toint(value, decimals)`: NaN unchanged, otherwise
      `round(value * 10**decimals)` (Python's round: ties to even). */
  function ToInt(f: Float, decimals: nat): (r: Option<Quantum>)
    ensures f.NaN? <==> r == Some(QNaN)
    ensures f.Inf? <==> r.None?
    ensures f.Fin? ==> r.Some? && r.value.QInt?
    ensures f.Fin? ==> var scaled := f.x * Pow10(decimals) as real;
                       scaled - 1.0 / 2.0 <= r.value.n as real <= scaled + 1.0 / 2.0
  {
    match f
    case NaN => Some(QNaN)
    case Inf(_) => None
    case Fin(x) => Some(QInt(RoundHalfEven(x * Pow10(decimals) as real)))
  }

  /** One element of a hashed tuple: a string (the database name, the event
      time bytes) or a quantised number. */
  datatype Item = Text(s: string) | Num(q: Quantum)

  /** `_tobytestr`: bytes stay as they are, other values are `str`-ed;
      `str(nan)` is "nan". */
  function ItemText(item: Item): (t: string)
    ensures item.Text? ==> t == item.s
    ensures item.Num? ==> |t| > 0 && '/' !in t
    ensures item == Num(QNaN) ==> !IsDigit(t[0]) && 'a' <= t[0] <= 'z'
    ensures item.Num? && item.q.QInt? ==> IsDigit(t[|t| - 1])
  {
    match item
    case Text(s) => s
    case Num(QNaN) => "nan"
    case Num(QInt(n)) => IntText(n)
  }

  /** `b'/'.join(parts)`. */
  function Join(parts: seq<string>): (s: string)
    requires |parts| >= 1
    decreases |parts|
  {
    if |parts| == 1 then parts[0] else parts[0] + "/" + Join(parts[1..])
  }

  /** Index of the first '/' of `s`. */
  function FirstSlash(s: string): (i: nat)
    requires '/' in s
    ensures i < |s| && s[i] == '/'
    ensures forall j :: 0 <= j < i ==> s[j] != '/'
  {
    if s[0] == '/' then 0 else 1 + FirstSlash(s[1..])
  }

  /** The inverse of `Join` on parts without '/'. */
  function Split(s: string): (parts: seq<string>)
    ensures |parts| >= 1
    decreases |s|
  {
    if '/' !in s then [s]
    else
      var i := FirstSlash(s);
      [s[..i]] + Split(s[i + 1..])
  }

  predicate NoSlash(s: string) {
    '/' !in s
  }

  lemma {:induction false} SplitJoin(parts: seq<string>)
    requires |parts| >= 1
    requires forall i :: 0 <= i < |parts| ==> NoSlash(parts[i])
    ensures Split(Join(parts)) == parts
    decreases |parts|
  {
    if |parts| > 1 {
      var p := parts[0];
      var s := Join(parts);
      var rest := Join(parts[1..]);
      assert s == p + "/" + rest;
      assert s[|p|] == '/';
      assert forall j :: 0 <= j < |p| ==> s[j] == p[j];
      assert FirstSlash(s) == |p|;
      assert s[..|p|] == p;
      assert s[|p| + 1..] == rest;
      SplitJoin(parts[1..]);
    }
  }

  function Texts(items: seq<Item>): (ts: seq<string>)
    ensures |ts| == |items|
    ensures forall i :: 0 <= i < |items| ==> ts[i] == ItemText(items[i])
  {
    seq(|items|, i requires 0 <= i < |items| => ItemText(items[i]))
  }

  /** The '/'-joined text that is digested. */
  function Serialise(items: seq<Item>): string
    requires |items| >= 1
  {
    Join(Texts(items))
  }

  /** The digested text splits back into the items' texts when none of
      them contains '/'. */
  lemma SerialiseSplits(items: seq<Item>)
    requires |items| >= 1
    requires forall i :: 0 <= i < |items| ==> NoSlash(ItemText(items[i]))
    ensures Split(Serialise(items)) == Texts(items)
  {
    SplitJoin(Texts(items));
  }

  /** `_hash(*items)`. */
  function Hash(items: seq<Item>, sha1: string -> string): string
    requires |items| >= 1
  {
    sha1(Serialise(items))
  }

  /** The digest sees only the items' texts: tuples whose items print the
      same (the bytes "5" and the number 5, say) get the same digest. */
  lemma HashOfTexts(a: seq<Item>, b: seq<Item>, sha1: string -> string)
    requires |a| >= 1 && Texts(a) == Texts(b)
    ensures Hash(a, sha1) == Hash(b, sha1)
    ensures Hash([Text("5")], sha1) == Hash([Num(QInt(5))], sha1)
  {
    assert Texts([Text("5")]) == Texts([Num(QInt(5))]) by {
      assert IntText(5) == "5";
    }
  }

  /** The quantised fields of one stored row, in the order of `get_ids`. */
  datatype IdFields = IdFields(
    dbname: string,
    pga: Quantum,
    eventLongitude: Quantum,
    eventLatitude: Quantum,
    depth: Quantum,
    eventTime: string,
    stationLongitude: Quantum,
    stationLatitude: Quantum)

  function RecordItems(f: IdFields): (items: seq<Item>)
    ensures |items| == 8
  {
    [Text(f.dbname), Num(f.pga), Num(f.eventLongitude), Num(f.eventLatitude),
     Num(f.depth), Text(f.eventTime), Num(f.stationLongitude), Num(f.stationLatitude)]
  }

  /** `ids[2:6]`. */
  function EventItems(f: IdFields): seq<Item> {
    RecordItems(f)[2..6]
  }

  /** `ids[6:]`. */
  function StationItems(f: IdFields): seq<Item> {
    RecordItems(f)[6..]
  }

  datatype Ids = Ids(eventId: string, stationId: string, recordId: string)

  /** Reads a stored cell as a number, as `np.isnan` would accept it. */
  function NumberIn(row: map<string, Value>, column: string): (r: Result<Float, IdError>)
    ensures r.Success? <==> column in row && (row[column].FloatV? || row[column].IntV? || row[column].BoolV?)
    ensures column in row && row[column].FloatV? ==> r == Success(row[column].f)
  {
    if column !in row then Failure(NoSuchColumn(column))
    else match row[column]
      case FloatV(f) => Success(f)
      case IntV(i) => Success(Fin(i as real))
      case BoolV(b) => Success(Fin(if b then 1.0 else 0.0))
      case _ => Failure(NotANumber(column))
  }

  /** `toint(tablerow[column], decimals)`. */
  function QuantumOf(row: map<string, Value>, column: string, decimals: nat): (r: Result<Quantum, IdError>)
    ensures r.Success? <==> NumberIn(row, column).Success? && !NumberIn(row, column).value.Inf?
  {
    var f :- NumberIn(row, column);
    match ToInt(f, decimals)
    case Some(q) => Success(q)
    case None => Failure(Infinite(column))
  }

  /** The event time cell: a string column always holds bytes. */
  function TextOf(row: map<string, Value>, column: string): (r: Result<string, IdError>)
    ensures r.Success? <==> column in row && row[column].StrV?
  {
    if column !in row then Failure(NoSuchColumn(column))
    else match row[column]
      case StrV(s) => Success(s)
      case _ => Failure(NotANumber(column))
  }

  /** The tuple `get_ids` builds, evaluated left to right. */
  function FieldsOf(row: map<string, Value>, dbname: string): (r: Result<IdFields, IdError>)
    ensures r.Success? ==>
              && r.value.dbname == dbname
              && Success(r.value.pga) == QuantumOf(row, "pga", 0)
              && Success(r.value.eventLongitude) == QuantumOf(row, "event_longitude", 5)
              && Success(r.value.eventLatitude) == QuantumOf(row, "event_latitude", 5)
              && Success(r.value.depth) == QuantumOf(row, "hypocenter_depth", 3)
              && Success(r.value.eventTime) == TextOf(row, "event_time")
              && Success(r.value.stationLongitude) == QuantumOf(row, "station_longitude", 5)
              && Success(r.value.stationLatitude) == QuantumOf(row, "station_latitude", 5)
  {
    var pga :- QuantumOf(row, "pga", 0);
    var eventLongitude :- QuantumOf(row, "event_longitude", 5);
    var eventLatitude :- QuantumOf(row, "event_latitude", 5);
    var depth :- QuantumOf(row, "hypocenter_depth", 3);
    var eventTime :- TextOf(row, "event_time");
    var stationLongitude :- QuantumOf(row, "station_longitude", 5);
    var stationLatitude :- QuantumOf(row, "station_latitude", 5);
    Success(IdFields(dbname, pga, eventLongitude, eventLatitude, depth, eventTime, stationLongitude, stationLatitude))
  }

  /** `get_ids`: event, station and record digests of a stored row. */
  function GetIds(row: map<string, Value>, dbname: string, sha1: string -> string): (r: Result<Ids, IdError>)
    ensures r.Success? <==> FieldsOf(row, dbname).Success?
    ensures r.Success? ==>
              var f := FieldsOf(row, dbname).value;
              && r.value.eventId == Hash(EventItems(f), sha1)
              && r.value.stationId == Hash(StationItems(f), sha1)
              && r.value.recordId == Hash(RecordItems(f), sha1)
  {
    var f :- FieldsOf(row, dbname);
    Success(Ids(Hash(EventItems(f), sha1), Hash(StationItems(f), sha1), Hash(RecordItems(f), sha1)))
  }

  /** Identifiers fail only through the seven fields they read: the call
      succeeds exactly when each is a finite-or-NaN number (the event time:
      a string). */
  lemma GetIdsDefined(row: map<string, Value>, dbname: string, sha1: string -> string)
    ensures GetIds(row, dbname, sha1).Success? <==>
              && QuantumOf(row, "pga", 0).Success?
              && QuantumOf(row, "event_longitude", 5).Success?
              && QuantumOf(row, "event_latitude", 5).Success?
              && QuantumOf(row, "hypocenter_depth", 3).Success?
              && TextOf(row, "event_time").Success?
              && QuantumOf(row, "station_longitude", 5).Success?
              && QuantumOf(row, "station_latitude", 5).Success?
  {
  }

  predicate SameCell(r1: map<string, Value>, r2: map<string, Value>, column: string) {
    column in r1 && column in r2 && r1[column] == r2[column]
  }

  /** Both maps lack `c`, or both map it to the same value. */
  predicate AgreeOn<V(==)>(m1: map<string, V>, m2: map<string, V>, c: string) {
    (c in m1 <==> c in m2) && (c in m1 ==> m1[c] == m2[c])
  }

  /** Identifiers read nothing but their seven fields. */
  lemma IdsReadOnlyIdFields(r1: map<string, Value>, r2: map<string, Value>, dbname: string, sha1: string -> string)
    requires AgreeOn(r1, r2, "pga") && AgreeOn(r1, r2, "event_longitude") && AgreeOn(r1, r2, "event_latitude")
    requires AgreeOn(r1, r2, "hypocenter_depth") && AgreeOn(r1, r2, "event_time")
    requires AgreeOn(r1, r2, "station_longitude") && AgreeOn(r1, r2, "station_latitude")
    ensures GetIds(r1, dbname, sha1) == GetIds(r2, dbname, sha1)
  {
    QuantumOfLocal(r1, r2, "pga", 0);
    QuantumOfLocal(r1, r2, "event_longitude", 5);
    QuantumOfLocal(r1, r2, "event_latitude", 5);
    QuantumOfLocal(r1, r2, "hypocenter_depth", 3);
    QuantumOfLocal(r1, r2, "station_longitude", 5);
    QuantumOfLocal(r1, r2, "station_latitude", 5);
    assert TextOf(r1, "event_time") == TextOf(r2, "event_time");
    assert FieldsOf(r1, dbname) == FieldsOf(r2, dbname);
  }

  lemma QuantumOfLocal(r1: map<string, Value>, r2: map<string, Value>, c: string, decimals: nat)
    requires AgreeOn(r1, r2, c)
    ensures QuantumOf(r1, c, decimals) == QuantumOf(r2, c, decimals)
  {
    assert NumberIn(r1, c) == NumberIn(r2, c);
  }

  /** The event id is a function of event longitude, latitude, depth and
      time alone. */
  lemma EventIdDependsOnlyOnEvent(r1: map<string, Value>, r2: map<string, Value>, db1: string, db2: string, sha1: string -> string)
    requires GetIds(r1, db1, sha1).Success? && GetIds(r2, db2, sha1).Success?
    requires SameCell(r1, r2, "event_longitude") && SameCell(r1, r2, "event_latitude")
    requires SameCell(r1, r2, "hypocenter_depth") && SameCell(r1, r2, "event_time")
    ensures GetIds(r1, db1, sha1).value.eventId == GetIds(r2, db2, sha1).value.eventId
  {
    var f1 := FieldsOf(r1, db1).value;
    var f2 := FieldsOf(r2, db2).value;
    QuantumOfLocal(r1, r2, "event_longitude", 5);
    QuantumOfLocal(r1, r2, "event_latitude", 5);
    QuantumOfLocal(r1, r2, "hypocenter_depth", 3);
    assert f1.eventLongitude == f2.eventLongitude && f1.eventLatitude == f2.eventLatitude;
    assert f1.depth == f2.depth && f1.eventTime == f2.eventTime;
    assert EventItems(f1) == EventItems(f2);
  }

  /** The station id is a function of station longitude and latitude alone. */
  lemma StationIdDependsOnlyOnStation(r1: map<string, Value>, r2: map<string, Value>, db1: string, db2: string, sha1: string -> string)
    requires GetIds(r1, db1, sha1).Success? && GetIds(r2, db2, sha1).Success?
    requires SameCell(r1, r2, "station_longitude") && SameCell(r1, r2, "station_latitude")
    ensures GetIds(r1, db1, sha1).value.stationId == GetIds(r2, db2, sha1).value.stationId
  {
    var f1 := FieldsOf(r1, db1).value;
    var f2 := FieldsOf(r2, db2).value;
    QuantumOfLocal(r1, r2, "station_longitude", 5);
    QuantumOfLocal(r1, r2, "station_latitude", 5);
    assert f1.stationLongitude == f2.stationLongitude && f1.stationLatitude == f2.stationLatitude;
    assert StationItems(f1) == StationItems(f2);
  }

  /** Text of a quantum never contains '/'. */
  lemma QuantumNoSlash(q: Quantum)
    ensures NoSlash(ItemText(Num(q)))
  {
    if q.QInt? {
      var s := IntText(q.n);
      assert forall i :: 0 <= i < |s| ==> s[i] != '/';
    }
  }

  lemma NanIsNotAnInteger(n: int)
    ensures ItemText(Num(QInt(n))) != "nan"
  {
    var s := IntText(n);
    assert s[0] != 'n';
  }

  /** Distinct quanta are written as distinct texts. */
  lemma QuantumTextInjective(p: Quantum, q: Quantum)
    requires ItemText(Num(p)) == ItemText(Num(q))
    ensures p == q
  {
    match (p, q)
    case (QInt(m), QInt(n)) => IntTextInjective(m, n);
    case (QNaN, QInt(n)) => NanIsNotAnInteger(n);
    case (QInt(m), QNaN) => NanIsNotAnInteger(m);
    case (QNaN, QNaN) =>
  }

  /** What is digested for a record loses nothing: when the database name
      and the event time contain no '/', equal digested texts come from
      equal quantised tuples. Only a collision of the digest itself can make
      two different records share an id. */
  lemma RecordSerialisationInjective(f1: IdFields, f2: IdFields)
    requires NoSlash(f1.dbname) && NoSlash(f1.eventTime)
    requires NoSlash(f2.dbname) && NoSlash(f2.eventTime)
    requires Serialise(RecordItems(f1)) == Serialise(RecordItems(f2))
    ensures f1 == f2
  {
    RecordTextsNoSlash(f1);
    RecordTextsNoSlash(f2);
    var t1 := Texts(RecordItems(f1));
    var t2 := Texts(RecordItems(f2));
    JoinInjective(t1, t2);
    TextsDetermineFields(f1, f2);
  }

  /** `Join` loses nothing on parts free of '/'. */
  lemma JoinInjective(t1: seq<string>, t2: seq<string>)
    requires |t1| >= 1 && |t2| >= 1
    requires forall i :: 0 <= i < |t1| ==> NoSlash(t1[i])
    requires forall i :: 0 <= i < |t2| ==> NoSlash(t2[i])
    requires Join(t1) == Join(t2)
    ensures t1 == t2
  {
    SplitJoin(t1);
    SplitJoin(t2);
  }

  lemma TextsDetermineFields(f1: IdFields, f2: IdFields)
    requires Texts(RecordItems(f1)) == Texts(RecordItems(f2))
    ensures f1 == f2
  {
    var t1 := Texts(RecordItems(f1));
    var t2 := Texts(RecordItems(f2));
    assert t1[1] == t2[1];
    QuantumTextInjective(f1.pga, f2.pga);
    assert t1[2] == t2[2];
    QuantumTextInjective(f1.eventLongitude, f2.eventLongitude);
    assert t1[3] == t2[3];
    QuantumTextInjective(f1.eventLatitude, f2.eventLatitude);
    assert t1[4] == t2[4];
    QuantumTextInjective(f1.depth, f2.depth);
    assert t1[6] == t2[6];
    QuantumTextInjective(f1.stationLongitude, f2.stationLongitude);
    assert t1[7] == t2[7];
    QuantumTextInjective(f1.stationLatitude, f2.stationLatitude);
    assert t1[0] == t2[0] && t1[5] == t2[5];
  }

  lemma RecordTextsNoSlash(f: IdFields)
    requires NoSlash(f.dbname) && NoSlash(f.eventTime)
    ensures forall i :: 0 <= i < 8 ==> NoSlash(Texts(RecordItems(f))[i])
  {
    QuantumNoSlash(f.pga);
    QuantumNoSlash(f.eventLongitude);
    QuantumNoSlash(f.eventLatitude);
    QuantumNoSlash(f.depth);
    QuantumNoSlash(f.stationLongitude);
    QuantumNoSlash(f.stationLatitude);
  }
}

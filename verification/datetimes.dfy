/** Event times (smtk/gm_database.py:600-634): `normalize_dtime` turns a
    date-time text in one of four formats into the ISO form
    `YYYY-MM-DDTHH:MM:SS`, and `_get_event_time` builds it from one column
    or from year, month, day, hour, minute and second columns.

    `datetime.strptime` is modelled as CPython's `_strptime` does it: each
    directive becomes a regular-expression group of alternatives tried in
    order with backtracking, a blank in the format matches one or more
    whitespace characters, letters match in any case, and text left over
    after the match is an error. Digits and whitespace are ASCII. */
module Datetimes {
  import opened Wrappers
  import opened Numbers
  import opened Text
  import Headers

  /** A `datetime` without time zone or microseconds. */
  datatype DateTime = DateTime(year: int, month: int, day: int, hour: int, minute: int, second: int)

  predicate IsLeap(year: int) {
    year % 4 == 0 && (year % 100 != 0 || year % 400 == 0)
  }

  function DaysInMonth(year: int, month: int): (n: int)
    requires 1 <= month <= 12
    ensures 28 <= n <= 31
    ensures n == 29 <==> month == 2 && IsLeap(year)
  {
    if month == 2 then (if IsLeap(year) then 29 else 28)
    else if month == 4 || month == 6 || month == 9 || month == 11 then 30
    else 31
  }

  /** The values `datetime(...)` accepts; anything else raises ValueError. */
  predicate Valid(dt: DateTime) {
    && 1 <= dt.year <= 9999
    && 1 <= dt.month <= 12
    && 1 <= dt.day <= DaysInMonth(dt.year, dt.month)
    && 0 <= dt.hour <= 23
    && 0 <= dt.minute <= 59
    && 0 <= dt.second <= 59
  }

  /** The directives used: `%Y %m %d %H %M %S`. */
  datatype Kind = Year | Month | Day | Hour | Minute | Second

  /** One character position of a directive's pattern. */
  datatype CharClass = Lit(c: char) | AnyDigit | Range(lo: char, hi: char)

  predicate ClassMatches(cc: CharClass, c: char) {
    match cc
    case Lit(l) => c == l
    case AnyDigit => IsDigit(c)
    case Range(lo, hi) => lo <= c <= hi
  }

  /** The alternatives of each directive's group, in the order the regular
      expression tries them. */
  function Alternatives(k: Kind): (alts: seq<seq<CharClass>>)
    ensures |alts| > 0
  {
    match k
    case Year => [[AnyDigit, AnyDigit, AnyDigit, AnyDigit]]
    case Month => [[Lit('1'), Range('0', '2')], [Lit('0'), Range('1', '9')], [Range('1', '9')]]
    case Day => [[Lit('3'), Range('0', '1')], [Range('1', '2'), AnyDigit], [Lit('0'), Range('1', '9')],
                 [Range('1', '9')], [Lit(' '), Range('1', '9')]]
    case Hour => [[Lit('2'), Range('0', '3')], [Range('0', '1'), AnyDigit], [AnyDigit]]
    case Minute => [[Range('0', '5'), AnyDigit], [AnyDigit]]
    case Second => [[Lit('6'), Range('0', '1')], [Range('0', '5'), AnyDigit], [AnyDigit]]
  }

  /** A format: directives, literal characters and blanks. */
  datatype Piece = Field(kind: Kind) | Exact(c: char) | Blank

  predicate AltMatches(alt: seq<CharClass>, s: string, pos: nat) {
    pos + |alt| <= |s| && forall m :: 0 <= m < |alt| ==> ClassMatches(alt[m], s[pos + m])
  }

  /** Where a match ends and the text each directive's group captured. */
  datatype Match = Match(end: nat, captures: map<Kind, string>)

  /** The first match of `ps` at `pos` in the regular expression's order of
      trying; there is no anchor at the end, so the first success stops. */
  function MatchPieces(ps: seq<Piece>, s: string, pos: nat): (r: Option<Match>)
    requires pos <= |s|
    ensures r.Some? ==> pos <= r.value.end <= |s|
    decreases |ps|, 1, 0
  {
    if |ps| == 0 then Some(Match(pos, map[]))
    else match ps[0]
      case Exact(c) =>
        if pos < |s| && Lower(s[pos]) == Lower(c) then MatchPieces(ps[1..], s, pos + 1) else None
      case Blank => TryBlank(ps[1..], s, pos, SpaceEnd(s, pos) - pos)
      case Field(k) => TryAlternatives(ps[1..], s, pos, k, Alternatives(k))
  }

  /** `\s+`: the longest run of `n` whitespace characters first, then
      shorter ones down to one. */
  function TryBlank(rest: seq<Piece>, s: string, pos: nat, n: nat): (r: Option<Match>)
    requires pos + n <= |s|
    ensures r.Some? ==> pos < r.value.end <= |s|
    decreases |rest| + 1, 0, n
  {
    if n == 0 then None
    else match MatchPieces(rest, s, pos + n)
      case Some(m) => Some(m)
      case None => TryBlank(rest, s, pos, n - 1)
  }

  /** A directive's group: each alternative in turn, keeping the first one
      after which the rest of the format matches. */
  function TryAlternatives(rest: seq<Piece>, s: string, pos: nat, k: Kind, alts: seq<seq<CharClass>>): (r: Option<Match>)
    requires pos <= |s|
    ensures r.Some? ==> pos <= r.value.end <= |s|
    decreases |rest| + 1, 0, |alts|
  {
    if |alts| == 0 then None
    else if AltMatches(alts[0], s, pos) then
      match MatchPieces(rest, s, pos + |alts[0]|)
      case Some(m) => Some(Match(m.end, m.captures[k := s[pos..pos + |alts[0]|]]))
      case None => TryAlternatives(rest, s, pos, k, alts[1..])
    else TryAlternatives(rest, s, pos, k, alts[1..])
  }

  /** `int` of a captured group: its digits, a leading blank ignored. */
  function GroupValue(t: string): (v: nat)
  {
    if |t| == 0 then 0
    else GroupValue(t[..|t| - 1]) * 10 + (if IsDigit(t[|t| - 1]) then DigitValue(t[|t| - 1]) else 0)
  }

  function Captured(m: Match, k: Kind, default: int): int {
    if k in m.captures then GroupValue(m.captures[k]) else default
  }

  datatype TimeError =
    | NoMatch
    | Unconverted(rest: string)
    | OutOfRange(dt: DateTime)
    | Unparsable(text: string)
    | MissingColumn(column: string)
    | NotAnInteger(column: string)

  /** `datetime.strptime(s, fmt)`: the format must match a prefix of `s`,
      nothing may be left over, and the fields must form a valid date; the
      year defaults to 1900, month and day to 1, the time to midnight. */
  function Strptime(s: string, fmt: seq<Piece>): (r: Result<DateTime, TimeError>)
    ensures r.Success? ==> Valid(r.value)
  {
    match MatchPieces(fmt, s, 0)
    case None => Failure(NoMatch)
    case Some(m) =>
      if m.end != |s| then Failure(Unconverted(s[m.end..]))
      else
        var dt := DateTime(Captured(m, Year, 1900), Captured(m, Month, 1), Captured(m, Day, 1),
                           Captured(m, Hour, 0), Captured(m, Minute, 0), Captured(m, Second, 0));
        if Valid(dt) then Success(dt) else Failure(OutOfRange(dt))
  }

  /** `'%Y-%m-%dT%H:%M:%S'`. */
  const IsoFormat: seq<Piece> := [Field(Year), Exact('-'), Field(Month), Exact('-'), Field(Day), Exact('T'),
                                  Field(Hour), Exact(':'), Field(Minute), Exact(':'), Field(Second)]
  /** `'%Y-%m-%d %H:%M:%S'`. */
  const SpacedFormat: seq<Piece> := [Field(Year), Exact('-'), Field(Month), Exact('-'), Field(Day), Blank,
                                     Field(Hour), Exact(':'), Field(Minute), Exact(':'), Field(Second)]
  /** `'%Y-%m-%d'`. */
  const DateFormat: seq<Piece> := [Field(Year), Exact('-'), Field(Month), Exact('-'), Field(Day)]
  /** `'%Y'`. */
  const YearFormat: seq<Piece> := [Field(Year)]

  /** The formats `normalize_dtime` tries, in order. */
  const Formats: seq<seq<Piece>> := [IsoFormat, SpacedFormat, DateFormat, YearFormat]

  /** The first format that parses `s`. */
  function ParseAny(s: string, fmts: seq<seq<Piece>>): (r: Result<DateTime, TimeError>)
    ensures r.Success? ==> Valid(r.value)
    ensures r.Success? <==> exists f :: 0 <= f < |fmts| && Strptime(s, fmts[f]).Success?
    ensures |fmts| > 0 && Strptime(s, fmts[0]).Success? ==> r == Strptime(s, fmts[0])
  {
    if |fmts| == 0 then Failure(Unparsable(s))
    else match Strptime(s, fmts[0])
      case Success(dt) => Success(dt)
      case Failure(_) =>
        var r := ParseAny(s, fmts[1..]);
        assert forall f :: 1 <= f < |fmts| ==> fmts[f] == fmts[1..][f - 1];
        r
  }

  /** `v` in exactly `w` decimal digits, zero-padded. */
  function Pad(v: nat, w: nat): (t: string)
    ensures |t| == w
    ensures forall m :: 0 <= m < w ==> IsDigit(t[m])
  {
    if w == 0 then [] else Pad(v / 10, w - 1) + [DigitChar(v % 10)]
  }

  /** The padded digits read back as the number. */
  lemma {:induction false} PadValue(v: nat, w: nat)
    requires v < Pow10(w)
    ensures GroupValue(Pad(v, w)) == v
  {
    if w > 0 {
      var t := Pad(v, w);
      assert t[..w - 1] == Pad(v / 10, w - 1);
      PadValue(v / 10, w - 1);
      DigitRoundTrip(v % 10);
    }
  }

  /** `dt.strftime('%Y-%m-%dT%H:%M:%S')`. */
  function FormatIso(dt: DateTime): (t: string)
    requires Valid(dt)
    ensures |t| == 19
    ensures t[4] == '-' && t[7] == '-' && t[10] == 'T' && t[13] == ':' && t[16] == ':'
    ensures forall m :: 0 <= m < 19 && m !in {4, 7, 10, 13, 16} ==> IsDigit(t[m])
  {
    Pad(dt.year, 4) + "-" + Pad(dt.month, 2) + "-" + Pad(dt.day, 2) + "T" +
    Pad(dt.hour, 2) + ":" + Pad(dt.minute, 2) + ":" + Pad(dt.second, 2)
  }

  /** `normalize_dtime` on a text: the first of the four formats that
      parses it, written back in the ISO format. */
  function NormalizeText(s: string): (r: Result<string, TimeError>)
    ensures r.Success? <==> exists f :: 0 <= f < |Formats| && Strptime(s, Formats[f]).Success?
    ensures r.Success? ==> |r.value| == 19 && r.value[4] == '-' && r.value[7] == '-' && r.value[10] == 'T'
    ensures r.Success? ==> exists dt :: Valid(dt) && FormatIso(dt) == r.value
  {
    var dt :- ParseAny(s, Formats);
    Success(FormatIso(dt))
  }

  /** The values each directive writes for a valid date-time. */
  predicate InRange(k: Kind, v: nat) {
    match k
    case Year => 1 <= v <= 9999
    case Month => 1 <= v <= 12
    case Day => 1 <= v <= 31
    case Hour => v <= 23
    case Minute => v <= 59
    case Second => v <= 59
  }

  /** How many digits `strftime` writes for each directive. */
  function Width(k: Kind): nat {
    if k == Year then 4 else 2
  }

  /** A literal character of the format matched in the text. */
  lemma ExactStep(ps: seq<Piece>, s: string, pos: nat)
    requires |ps| > 0 && ps[0].Exact? && pos < |s| && Lower(s[pos]) == Lower(ps[0].c)
    ensures MatchPieces(ps, s, pos) == MatchPieces(ps[1..], s, pos + 1)
  {
  }

  /** The group keeps the first alternative that matches here when the rest
      of the format matches after it. */
  lemma {:induction false} FirstAlternative(rest: seq<Piece>, s: string, pos: nat, k: Kind,
                                            alts: seq<seq<CharClass>>, a: nat, m: Match)
    requires pos <= |s| && a < |alts| && AltMatches(alts[a], s, pos)
    requires forall b :: 0 <= b < a ==> !AltMatches(alts[b], s, pos)
    requires MatchPieces(rest, s, pos + |alts[a]|) == Some(m)
    ensures TryAlternatives(rest, s, pos, k, alts) == Some(Match(m.end, m.captures[k := s[pos..pos + |alts[a]|]]))
    decreases a
  {
    if a > 0 {
      FirstAlternative(rest, s, pos, k, alts[1..], a - 1, m);
    }
  }

  /** The first alternative of directive `k` that matches at `pos` is
      alternative `a`, and it is as wide as what `strftime` writes. */
  predicate PicksPadded(k: Kind, s: string, pos: nat, a: nat) {
    && a < |Alternatives(k)| && |Alternatives(k)[a]| == Width(k)
    && AltMatches(Alternatives(k)[a], s, pos)
    && forall b :: 0 <= b < a ==> !AltMatches(Alternatives(k)[b], s, pos)
  }

  /** The two digits of `v` at `pos`. */
  predicate DigitsAt(s: string, pos: nat, v: nat) {
    v < 100 && pos + 2 <= |s| && s[pos] as int == '0' as int + v / 10 && s[pos + 1] as int == '0' as int + v % 10
  }

  lemma MonthAlternative(v: nat, s: string, pos: nat) returns (a: nat)
    requires 1 <= v <= 12 && DigitsAt(s, pos, v)
    ensures PicksPadded(Month, s, pos, a)
  {
    a := if v >= 10 then 0 else 1;
    assert v < 10 ==> !ClassMatches(Alternatives(Month)[0][0], s[pos]);
  }

  lemma DayAlternative(v: nat, s: string, pos: nat) returns (a: nat)
    requires 1 <= v <= 31 && DigitsAt(s, pos, v)
    ensures PicksPadded(Day, s, pos, a)
  {
    a := if v >= 30 then 0 else if v >= 10 then 1 else 2;
    assert v < 30 ==> !ClassMatches(Alternatives(Day)[0][0], s[pos]);
    assert v < 10 ==> !ClassMatches(Alternatives(Day)[1][0], s[pos]);
  }

  lemma HourAlternative(v: nat, s: string, pos: nat) returns (a: nat)
    requires v <= 23 && DigitsAt(s, pos, v)
    ensures PicksPadded(Hour, s, pos, a)
  {
    a := if v >= 20 then 0 else 1;
    assert v < 20 ==> !ClassMatches(Alternatives(Hour)[0][0], s[pos]);
  }

  lemma MinuteAlternative(v: nat, s: string, pos: nat) returns (a: nat)
    requires v <= 59 && DigitsAt(s, pos, v)
    ensures PicksPadded(Minute, s, pos, a)
  {
    a := 0;
  }

  lemma SecondAlternative(v: nat, s: string, pos: nat) returns (a: nat)
    requires v <= 59 && DigitsAt(s, pos, v)
    ensures PicksPadded(Second, s, pos, a)
  {
    a := 1;
    assert !ClassMatches(Alternatives(Second)[0][0], s[pos]);
  }

  /** For every value `strftime` writes, the first alternative of the
      directive that matches the padded digits takes all of them. */
  lemma PaddedAlternative(k: Kind, v: nat, s: string, pos: nat) returns (a: nat)
    requires InRange(k, v)
    requires pos + Width(k) <= |s| && s[pos..pos + Width(k)] == Pad(v, Width(k))
    ensures a < |Alternatives(k)| && |Alternatives(k)[a]| == Width(k)
    ensures AltMatches(Alternatives(k)[a], s, pos)
    ensures forall b :: 0 <= b < a ==> !AltMatches(Alternatives(k)[b], s, pos)
  {
    if k == Year {
      a := 0;
      assert forall m :: 0 <= m < 4 ==> s[pos + m] == Pad(v, 4)[m];
    } else {
      var d1, d0 := (v / 10) % 10, v % 10;
      assert Pad(v, 2) == [DigitChar(d1), DigitChar(d0)];
      assert s[pos] == DigitChar(d1) && s[pos + 1] == DigitChar(d0) by {
        assert s[pos] == s[pos..pos + 2][0] && s[pos + 1] == s[pos..pos + 2][1];
      }
      assert DigitsAt(s, pos, v);
      match k
      case Month => a := MonthAlternative(v, s, pos);
      case Day => a := DayAlternative(v, s, pos);
      case Hour => a := HourAlternative(v, s, pos);
      case Minute => a := MinuteAlternative(v, s, pos);
      case Second => a := SecondAlternative(v, s, pos);
    }
  }

  /** A directive matched against the digits `strftime` wrote for it. */
  lemma FieldStep(ps: seq<Piece>, s: string, pos: nat, v: nat, m: Match)
    requires |ps| > 0 && ps[0].Field? && InRange(ps[0].kind, v)
    requires pos + Width(ps[0].kind) <= |s| && s[pos..pos + Width(ps[0].kind)] == Pad(v, Width(ps[0].kind))
    requires MatchPieces(ps[1..], s, pos + Width(ps[0].kind)) == Some(m)
    ensures MatchPieces(ps, s, pos) == Some(Match(m.end, m.captures[ps[0].kind := Pad(v, Width(ps[0].kind))]))
  {
    var k := ps[0].kind;
    var a := PaddedAlternative(k, v, s, pos);
    FirstAlternative(ps[1..], s, pos, k, Alternatives(k), a, m);
  }

  /** The text `YYYY-MM-DD` at the front of `s`, with the digits of `dt`'s
      date: a month from 1 to 12 and a day from 1 to 31, whether or not
      that date exists. */
  predicate DatePrefix(s: string, dt: DateTime) {
    && 1 <= dt.year <= 9999 && 1 <= dt.month <= 12 && 1 <= dt.day <= 31 && |s| >= 10
    && s[0..4] == Pad(dt.year, 4) && s[4] == '-' && s[5..7] == Pad(dt.month, 2) && s[7] == '-'
    && s[8..10] == Pad(dt.day, 2)
  }

  /** Exactly the text `YYYY-MM-DD`. */
  predicate DateText(s: string, dt: DateTime) {
    DatePrefix(s, dt) && |s| == 10
  }

  /** The text `HH:MM:SS` from `pos` to the end of `s`, with `dt`'s time. */
  predicate TimeSuffix(s: string, pos: nat, dt: DateTime) {
    && 0 <= dt.hour <= 23 && 0 <= dt.minute <= 59 && 0 <= dt.second <= 59 && |s| == pos + 8
    && s[pos..pos + 2] == Pad(dt.hour, 2) && s[pos + 2] == ':'
    && s[pos + 3..pos + 5] == Pad(dt.minute, 2) && s[pos + 5] == ':'
    && s[pos + 6..pos + 8] == Pad(dt.second, 2)
  }

  /** `FormatIso` writes the date, the separator `T` and the time. */
  lemma FormatIsoLayout(dt: DateTime, sep: char)
    requires Valid(dt)
    ensures DatePrefix(FormatIso(dt)[10 := sep], dt) && TimeSuffix(FormatIso(dt)[10 := sep], 11, dt)
    ensures FormatIso(dt)[10 := sep][10] == sep
  {
  }

  /** `%H:%M:%S` matched against the time at the end of the text. */
  lemma TimeMatches(s: string, pos: nat, dt: DateTime)
    requires TimeSuffix(s, pos, dt)
    ensures MatchPieces(IsoFormat[6..], s, pos) ==
              Some(Match(|s|, map[Second := Pad(dt.second, 2), Minute := Pad(dt.minute, 2), Hour := Pad(dt.hour, 2)]))
  {
    var f := IsoFormat;
    var m := Match(|s|, map[]);
    assert MatchPieces(f[11..], s, |s|) == Some(m);
    FieldStep(f[10..], s, pos + 6, dt.second, m);
    m := Match(|s|, m.captures[Second := Pad(dt.second, 2)]);
    ExactStep(f[9..], s, pos + 5);
    FieldStep(f[8..], s, pos + 3, dt.minute, m);
    m := Match(|s|, m.captures[Minute := Pad(dt.minute, 2)]);
    ExactStep(f[7..], s, pos + 2);
    FieldStep(f[6..], s, pos, dt.hour, m);
  }

  /** `%Y-%m-%d` matched against the date at the front of the text,
      followed by whatever the rest of the format matched. */
  lemma DateMatches(f: seq<Piece>, s: string, dt: DateTime, m: Match)
    requires |f| >= 5 && f[..5] == DateFormat && DatePrefix(s, dt)
    requires MatchPieces(f[5..], s, 10) == Some(m)
    ensures MatchPieces(f, s, 0) ==
              Some(Match(m.end, m.captures[Day := Pad(dt.day, 2)][Month := Pad(dt.month, 2)][Year := Pad(dt.year, 4)]))
  {
    assert f[4..][1..] == f[5..] && f[4..][0] == f[4];
    FieldStep(f[4..], s, 8, dt.day, m);
    var m1 := Match(m.end, m.captures[Day := Pad(dt.day, 2)]);
    ExactStep(f[3..], s, 7);
    FieldStep(f[2..], s, 5, dt.month, m1);
    var m2 := Match(m.end, m1.captures[Month := Pad(dt.month, 2)]);
    ExactStep(f[1..], s, 4);
    FieldStep(f, s, 0, dt.year, m2);
  }

  /** A whole-text match of date and time gives the date-time back. */
  lemma DateTimeParses(f: seq<Piece>, s: string, dt: DateTime)
    requires Valid(dt) && |f| >= 5 && f[..5] == DateFormat && DatePrefix(s, dt) && |s| == 19
    requires MatchPieces(f[5..], s, 10) ==
               Some(Match(19, map[Second := Pad(dt.second, 2), Minute := Pad(dt.minute, 2), Hour := Pad(dt.hour, 2)]))
    ensures Strptime(s, f) == Success(dt)
  {
    var caps := map[Second := Pad(dt.second, 2), Minute := Pad(dt.minute, 2), Hour := Pad(dt.hour, 2)];
    DateMatches(f, s, dt, Match(19, caps));
    var m := Match(19, caps[Day := Pad(dt.day, 2)][Month := Pad(dt.month, 2)][Year := Pad(dt.year, 4)]);
    assert MatchPieces(f, s, 0) == Some(m);
    CapturesRead(m, dt);
  }

  /** The six groups captured from `strftime`'s digits read back as the
      date-time's fields. */
  lemma CapturesRead(m: Match, dt: DateTime)
    requires Valid(dt)
    requires m.captures == map[Second := Pad(dt.second, 2), Minute := Pad(dt.minute, 2), Hour := Pad(dt.hour, 2)]
                             [Day := Pad(dt.day, 2)][Month := Pad(dt.month, 2)][Year := Pad(dt.year, 4)]
    ensures DateTime(Captured(m, Year, 1900), Captured(m, Month, 1), Captured(m, Day, 1),
                     Captured(m, Hour, 0), Captured(m, Minute, 0), Captured(m, Second, 0)) == dt
  {
    PadValue(dt.year, 4);
    PadValue(dt.month, 2);
    PadValue(dt.day, 2);
    PadValue(dt.hour, 2);
    PadValue(dt.minute, 2);
    PadValue(dt.second, 2);
  }

  /** The ISO format reads its own output back, with the `T` in either
      letter case. */
  lemma IsoParsesAnyCase(dt: DateTime, sep: char)
    requires Valid(dt) && (sep == 'T' || sep == 't')
    ensures Strptime(FormatIso(dt)[10 := sep], IsoFormat) == Success(dt)
  {
    var s := FormatIso(dt)[10 := sep];
    FormatIsoLayout(dt, sep);
    TimeMatches(s, 11, dt);
    ExactStep(IsoFormat[5..], s, 10);
    DateTimeParses(IsoFormat, s, dt);
  }

  /** Parsing the ISO text of a date-time with the ISO format gives the
      date-time back. */
  lemma IsoParses(dt: DateTime)
    requires Valid(dt)
    ensures Strptime(FormatIso(dt), IsoFormat) == Success(dt)
  {
    IsoParsesAnyCase(dt, 'T');
    assert FormatIso(dt)[10 := 'T'] == FormatIso(dt);
  }

  /** Normalising an already normalised date-time gives it back. */
  lemma NormalizeIso(dt: DateTime)
    requires Valid(dt)
    ensures NormalizeText(FormatIso(dt)) == Success(FormatIso(dt))
  {
    IsoParses(dt);
  }

  /** A lower-case `t` between date and time is accepted too. */
  lemma NormalizeLowerT(dt: DateTime)
    requires Valid(dt)
    ensures NormalizeText(FormatIso(dt)[10 := 't']) == Success(FormatIso(dt))
  {
    IsoParsesAnyCase(dt, 't');
  }

  /** Normalisation is idempotent. */
  lemma NormalizeIdempotent(s: string)
    requires NormalizeText(s).Success?
    ensures NormalizeText(NormalizeText(s).value) == NormalizeText(s)
  {
    var dt := ParseAny(s, Formats).value;
    NormalizeIso(dt);
  }

  /** The ISO text loses nothing: distinct date-times have distinct texts. */
  lemma FormatIsoInjective(a: DateTime, b: DateTime)
    requires Valid(a) && Valid(b) && FormatIso(a) == FormatIso(b)
    ensures a == b
  {
    IsoParses(a);
    IsoParses(b);
  }

  /** A group fails when the rest of the format fails after every
      alternative that matches. */
  lemma {:induction false} NoAlternative(rest: seq<Piece>, s: string, pos: nat, k: Kind, alts: seq<seq<CharClass>>)
    requires pos <= |s|
    requires forall a :: 0 <= a < |alts| && AltMatches(alts[a], s, pos) ==> MatchPieces(rest, s, pos + |alts[a]|).None?
    ensures TryAlternatives(rest, s, pos, k, alts).None?
    decreases |alts|
  {
    if |alts| > 0 {
      assert forall a :: 1 <= a < |alts| ==> alts[1..][a - 1] == alts[a];
      NoAlternative(rest, s, pos, k, alts[1..]);
    }
  }

  /** The ISO `T` and the blank of the spaced format both fail on a digit
      or at the end of the text. */
  lemma TimeSeparatorFails(ps: seq<Piece>, s: string, p: nat)
    requires |ps| > 0 && (ps[0] == Exact('T') || ps[0] == Blank)
    requires p <= |s| && (p == |s| || IsDigit(s[p]))
    ensures MatchPieces(ps, s, p).None?
  {
  }

  /** The shape the ISO and spaced formats share up to the time. */
  predicate DateThenTime(f: seq<Piece>) {
    && |f| > 5
    && f[0] == Field(Year) && f[1] == Exact('-') && f[2] == Field(Month) && f[3] == Exact('-')
    && f[4] == Field(Day) && (f[5] == Exact('T') || f[5] == Blank)
  }

  lemma DayThenTimeFails(ps: seq<Piece>, s: string)
    requires |ps| > 1 && ps[0] == Field(Day) && |s| >= 10
    requires MatchPieces(ps[1..], s, 9).None? && MatchPieces(ps[1..], s, 10).None?
    ensures MatchPieces(ps, s, 8).None?
  {
    var alts := Alternatives(Day);
    assert forall a :: 0 <= a < |alts| ==> 1 <= |alts[a]| <= 2;
    NoAlternative(ps[1..], s, 8, Day, alts);
  }

  lemma MonthThenDayFails(ps: seq<Piece>, s: string)
    requires |ps| > 2 && ps[0] == Field(Month) && ps[1] == Exact('-')
    requires |s| >= 10 && IsDigit(s[6]) && MatchPieces(ps[2..], s, 8).None?
    ensures MatchPieces(ps, s, 5).None?
  {
    var alts := Alternatives(Month);
    assert forall a :: 0 <= a < |alts| ==> 1 <= |alts[a]| <= 2;
    NoAlternative(ps[1..], s, 5, Month, alts);
  }

  lemma YearThenMonthFails(ps: seq<Piece>, s: string)
    requires |ps| > 2 && ps[0] == Field(Year) && ps[1] == Exact('-')
    requires |s| >= 10 && s[4] == '-' && MatchPieces(ps[2..], s, 5).None?
    ensures MatchPieces(ps, s, 0).None?
  {
    NoAlternative(ps[1..], s, 0, Year, Alternatives(Year));
  }

  /** Whichever alternatives the groups try, a format with a date and then
      a time fails when its separator fails right after the day. */
  lemma DateThenTimeFails(s: string, dt: DateTime, f: seq<Piece>)
    requires DatePrefix(s, dt) && DateThenTime(f)
    requires MatchPieces(f[5..], s, 9).None? && MatchPieces(f[5..], s, 10).None?
    ensures MatchPieces(f, s, 0).None?
  {
    assert IsDigit(s[6]) by {
      assert s[6] == s[5..7][1];
    }
    assert f[4..][1..] == f[5..] && f[2..][2..] == f[4..];
    DayThenTimeFails(f[4..], s);
    MonthThenDayFails(f[2..], s);
    YearThenMonthFails(f, s);
  }

  /** A text `YYYY-MM-DD` does not match the two date-time formats. */
  lemma DateOnlyIsNotDateTime(s: string, dt: DateTime, f: seq<Piece>)
    requires DateText(s, dt) && DateThenTime(f)
    ensures MatchPieces(f, s, 0).None?
  {
    assert IsDigit(s[9]) by {
      assert s[9] == s[8..10][1];
    }
    TimeSeparatorFails(f[5..], s, 9);
    TimeSeparatorFails(f[5..], s, 10);
    DateThenTimeFails(s, dt, f);
  }

  /** The date format reads the date back, at midnight, and rejects a
      date that does not exist. */
  lemma DateFormatParses(s: string, dt: DateTime)
    requires DateText(s, dt) && dt.hour == 0 && dt.minute == 0 && dt.second == 0
    ensures Strptime(s, DateFormat) == if Valid(dt) then Success(dt) else Failure(OutOfRange(dt))
  {
    assert DateFormat[..5] == DateFormat;
    assert MatchPieces(DateFormat[5..], s, 10) == Some(Match(10, map[]));
    DateMatches(DateFormat, s, dt, Match(10, map[]));
    PadValue(dt.year, 4);
    PadValue(dt.month, 2);
    PadValue(dt.day, 2);
  }

  /** A format that does not apply is passed over for the next one. */
  lemma SkipFormat(s: string, fmts: seq<seq<Piece>>)
    requires |fmts| > 0 && (MatchPieces(fmts[0], s, 0).None? || Strptime(s, fmts[0]).Failure?)
    ensures ParseAny(s, fmts) == ParseAny(s, fmts[1..])
  {
  }

  /** The year format leaves over whatever follows the first four digits. */
  lemma YearFormatLeavesRest(s: string, y: nat)
    requires 1 <= y <= 9999 && |s| > 4 && s[0..4] == Pad(y, 4)
    ensures Strptime(s, YearFormat) == Failure(Unconverted(s[4..]))
  {
    FieldStep(YearFormat, s, 0, y, Match(4, map[]));
  }

  /** Date and time separated by one whitespace character normalise to the
      ISO text: the ISO format fails at the separator and the spaced
      format applies. */
  lemma NormalizeSpaced(dt: DateTime, sep: char)
    requires Valid(dt) && IsSpace(sep)
    ensures NormalizeText(FormatIso(dt)[10 := sep]) == Success(FormatIso(dt))
  {
    var s := FormatIso(dt)[10 := sep];
    FormatIsoLayout(dt, sep);
    assert IsDigit(s[9]) && IsDigit(s[11]) by {
      assert s[9] == s[8..10][1] && s[11] == s[11..13][0];
    }
    TimeSeparatorFails(IsoFormat[5..], s, 9);
    DateThenTimeFails(s, dt, IsoFormat);
    SkipFormat(s, Formats);
    TimeMatches(s, 11, dt);
    assert SpacedFormat[5..][1..] == IsoFormat[6..];
    assert SpaceEnd(s, 10) == 11;
    DateTimeParses(SpacedFormat, s, dt);
  }

  /** A text `YYYY-MM-DD` of a valid date normalises to midnight of that
      date: the two date-time formats fail and the date format applies. */
  lemma NormalizeDateOnly(s: string, dt: DateTime)
    requires DateText(s, dt) && Valid(dt) && dt.hour == 0 && dt.minute == 0 && dt.second == 0
    ensures NormalizeText(s) == Success(FormatIso(dt))
  {
    DateOnlyIsNotDateTime(s, dt, IsoFormat);
    DateOnlyIsNotDateTime(s, dt, SpacedFormat);
    DateFormatParses(s, dt);
    SkipFormat(s, Formats);
    SkipFormat(s, Formats[1..]);
    assert Formats[1..][1..] == [DateFormat, YearFormat];
  }

  /** A four-digit year alone normalises to midnight of the first of
      January of that year. */
  lemma NormalizeYearOnly(y: nat)
    requires 1 <= y <= 9999
    ensures NormalizeText(Pad(y, 4)) == Success(FormatIso(DateTime(y, 1, 1, 0, 0, 0)))
  {
    var s := Pad(y, 4);
    assert s[0..4] == s;
    NoAlternative(IsoFormat[1..], s, 0, Year, Alternatives(Year));
    NoAlternative(SpacedFormat[1..], s, 0, Year, Alternatives(Year));
    NoAlternative(DateFormat[1..], s, 0, Year, Alternatives(Year));
    SkipFormat(s, Formats);
    SkipFormat(s, Formats[1..]);
    SkipFormat(s, Formats[2..]);
    assert Formats[1..][1..][1..] == [YearFormat];
    FieldStep(YearFormat, s, 0, y, Match(4, map[]));
    PadValue(y, 4);
  }

  /** A text `YYYY-MM-DD` naming a day the month does not have, such as
      the 30th of February, is unparsable: the date format rejects the
      date and the year format leaves text over. */
  lemma NonexistentDateRejected(s: string, dt: DateTime)
    requires DateText(s, dt) && !Valid(dt) && dt.hour == 0 && dt.minute == 0 && dt.second == 0
    ensures NormalizeText(s) == Failure(Unparsable(s))
  {
    DateOnlyIsNotDateTime(s, dt, IsoFormat);
    DateOnlyIsNotDateTime(s, dt, SpacedFormat);
    DateFormatParses(s, dt);
    SkipFormat(s, Formats);
    SkipFormat(s, Formats[1..]);
    SkipFormat(s, Formats[2..]);
    YearFormatLeavesRest(s, dt.year);
    SkipFormat(s, Formats[3..]);
    assert Formats[3..][1..] == [];
  }

  /** Python's `int` of a text: surrounding whitespace, an optional sign
      and at least one decimal digit (digit-group underscores are not
      modelled). */
  function PyInt(text: string): (r: Option<int>)
    ensures r.Some? ==> |Strip(text)| > 0
    ensures r.Some? ==> forall m :: 1 <= m < |Strip(text)| ==> IsDigit(Strip(text)[m])
    ensures r.Some? && r.value < 0 ==> Strip(text)[0] == '-'
    ensures r.None? && |Strip(text)| > 0 && IsDigit(Strip(text)[0]) ==>
              exists m :: 1 <= m < |Strip(text)| && !IsDigit(Strip(text)[m])
  {
    var t := Strip(text);
    var digits := if |t| > 0 && (t[0] == '-' || t[0] == '+') then t[1..] else t;
    if |digits| == 0 || exists m :: 0 <= m < |digits| && !IsDigit(digits[m]) then None
    else if t[0] == '-' then Some(-(ParseNat(digits) as int))
    else Some(ParseNat(digits) as int)
  }

  /** `int(str(n)) == n`. */
  lemma PyIntRoundTrip(n: int)
    ensures PyInt(IntText(n)) == Some(n)
  {
    var s := IntText(n);
    assert Strip(s) == s;
    IntTextRoundTrip(n);
    if n < 0 {
      assert s[1..] == NatText(-n);
    }
  }

  /** Leading zeros do not matter to `int`. */
  lemma PyIntPadded(v: nat, w: nat)
    requires 0 < w && v < Pow10(w)
    ensures PyInt(Pad(v, w)) == Some(v)
  {
    var s := Pad(v, w);
    assert Strip(s) == s;
    PadReadsBack(v, w);
  }

  /** `ParseNat` and `GroupValue` agree on digits. */
  lemma {:induction false} PadReadsBack(v: nat, w: nat)
    requires v < Pow10(w)
    ensures ParseNat(Pad(v, w)) == v
  {
    if w > 0 {
      var t := Pad(v, w);
      assert t[..w - 1] == Pad(v / 10, w - 1);
      PadReadsBack(v / 10, w - 1);
      DigitRoundTrip(v % 10);
    }
  }

  /** `int(rowdict[column])` for year, month and day: the column must be
      in the row. */
  function RequiredPart(row: map<string, string>, column: string): (r: Result<int, TimeError>)
    ensures r.Success? <==> column in row && PyInt(row[column]).Some?
    ensures r.Success? ==> r.value == PyInt(row[column]).value
  {
    if column !in row then Failure(MissingColumn(column))
    else match PyInt(row[column])
      case None => Failure(NotAnInteger(column))
      case Some(v) => Success(v)
  }

  /** `int(rowdict.get(column, 0))` for hour, minute and second: a column
      that was not found, or is not in the row, counts as 0. */
  function OptionalPart(row: map<string, string>, column: Option<string>): (r: Result<int, TimeError>)
    ensures column.None? || column.value !in row ==> r == Success(0)
    ensures column.Some? && column.value in row ==> (r.Success? <==> PyInt(row[column.value]).Some?)
  {
    if column.None? || column.value !in row then Success(0)
    else RequiredPart(row, column.value)
  }

  /** The integer read from a time column that may be absent: 0 when
      there is no such column or the row lacks it. */
  function TimePart(row: map<string, string>, column: Option<string>): Option<int> {
    if column.None? || column.value !in row then Some(0) else PyInt(row[column.value])
  }

  /** Every column the six-column layout reads holds an integer. */
  predicate SixColumnsRead(row: map<string, string>, cols: Headers.EventTimeColumns)
    requires cols.SixColumns?
  {
    && cols.year in row && cols.month in row && cols.day in row
    && PyInt(row[cols.year]).Some? && PyInt(row[cols.month]).Some? && PyInt(row[cols.day]).Some?
    && TimePart(row, cols.hour).Some? && TimePart(row, cols.minute).Some? && TimePart(row, cols.second).Some?
  }

  /** The date-time the six columns spell. */
  function SixColumnsDate(row: map<string, string>, cols: Headers.EventTimeColumns): DateTime
    requires cols.SixColumns? && SixColumnsRead(row, cols)
  {
    DateTime(PyInt(row[cols.year]).value, PyInt(row[cols.month]).value, PyInt(row[cols.day]).value,
             TimePart(row, cols.hour).value, TimePart(row, cols.minute).value, TimePart(row, cols.second).value)
  }

  /** `_get_event_time(rowdict, evtime_fieldnames)`: the normalised text of
      the single column, or the date-time built from the six. The six-column
      layout succeeds exactly when every column it reads holds an integer
      and together they form a valid date-time, which is then written in the
      ISO format. */
  function EventTime(row: map<string, string>, cols: Headers.EventTimeColumns): (r: Result<string, TimeError>)
    ensures cols.OneColumn? && r.Success? ==> cols.name in row
    ensures cols.OneColumn? && cols.name in row ==> r == NormalizeText(row[cols.name])
    ensures cols.OneColumn? && cols.name !in row ==> r.Failure?
    ensures cols.SixColumns? ==> (r.Success? <==> SixColumnsRead(row, cols) && Valid(SixColumnsDate(row, cols)))
    ensures cols.SixColumns? && r.Success? ==> r.value == FormatIso(SixColumnsDate(row, cols))
  {
    match cols
    case OneColumn(c) => if c !in row then Failure(MissingColumn(c)) else NormalizeText(row[c])
    case SixColumns(y, mo, d, h, mi, se) =>
      var year :- RequiredPart(row, y);
      var month :- RequiredPart(row, mo);
      var day :- RequiredPart(row, d);
      var hour :- OptionalPart(row, h);
      var minute :- OptionalPart(row, mi);
      var second :- OptionalPart(row, se);
      var dt := DateTime(year, month, day, hour, minute, second);
      if Valid(dt) then Success(FormatIso(dt)) else Failure(OutOfRange(dt))
  }

  /** Whatever columns it comes from, an event time is already in normal
      form. */
  lemma EventTimeIsNormal(row: map<string, string>, cols: Headers.EventTimeColumns)
    requires EventTime(row, cols).Success?
    ensures NormalizeText(EventTime(row, cols).value) == EventTime(row, cols)
  {
    match cols
    case OneColumn(c) => NormalizeIdempotent(row[c]);
    case SixColumns(y, mo, d, h, mi, se) =>
      var dt := DateTime(PyInt(row[y]).value, PyInt(row[mo]).value, PyInt(row[d]).value,
                         OptionalPart(row, h).value, OptionalPart(row, mi).value, OptionalPart(row, se).value);
      NormalizeIso(dt);
  }

  /** The same date given as one `YYYY-MM-DD` column or as year, month and
      day columns (without time columns) gives the same event time. */
  lemma OneAndSixColumnsAgree(row: map<string, string>, c: string, y: string, mo: string, d: string, dt: DateTime)
    requires c in row && y in row && mo in row && d in row
    requires DateText(row[c], dt) && Valid(dt) && dt.hour == 0 && dt.minute == 0 && dt.second == 0
    requires row[y] == IntText(dt.year) && row[mo] == IntText(dt.month) && row[d] == IntText(dt.day)
    ensures EventTime(row, Headers.OneColumn(c)) == EventTime(row, Headers.SixColumns(y, mo, d, None, None, None))
    ensures EventTime(row, Headers.OneColumn(c)) == Success(FormatIso(dt))
  {
    NormalizeDateOnly(row[c], dt);
    PyIntRoundTrip(dt.year);
    PyIntRoundTrip(dt.month);
    PyIntRoundTrip(dt.day);
  }
}

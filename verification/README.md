# Ground-motion database ingestion and selection, in Dafny

A model of the core of the gmpe-smtk ground-motion database
(`smtk/gm_database.py`) and of the two helpers it relies on from
`smtk/sm_utils.py`. The model covers:

- **The record schema (`Schema`).**
  - The column classes and the "default means missing" sentinel of each class (`COLUMN_DEFAULTS`).
  - The column factory `_col`.
  - The declared columns of `GMDatabaseTable`, with their bounds and the 111-element spectral vector.
- **Flat-file headers (`Headers`, `Text`).**
  - The `sa(<period>)` and `pga(<unit>)` header patterns.
  - How the spectral columns, the event-time columns and the PGA column with its unit are resolved from the CSV field names.
- **Event times (`Datetimes`).**
  - `normalize_dtime`: the four formats tried in order by `datetime.strptime`, including its calendar validation, and the output written back as `%Y-%m-%dT%H:%M:%S`.
  - `_get_event_time`, which builds the time from one column or from year…second columns.
- **PGA of a row (`Rows`).**
  - The choice of the unit when `_rows` reads a row.
  - The conversion to cm/s².
- **Unit conversion and period lookup (`Units`).**
  - `convert_accel_units`.
  - The range check and the bracketing indices of `get_interpolated_period`.
- **Record identity (`Identity`, `Numbers`).**
  - `_toint` quantisation with Python's round-half-to-even.
  - `_tobytestr`, and the `/`-joined text that `_hash` digests.
  - The event, station and record ids of `get_ids`.
- **Writing and statistics (`Writer`).**
  - The column loop of `_writerow`, which casts each value, resets an out-of-bound value to the sentinel and reports missing and out-of-bound columns. Text in a column that carries a bound is reported missing, because numpy raises TypeError when comparing text with a number and the `except` at 741-742 catches it.
  - Overwriting the three id columns.
  - The statistics loop of `parse` (total, written, error positions, per-column counts).
- **The selection-condition compiler (`Condition`).**
  - `_parse_condition`, over the token sequence of the condition.
  - Its checks of `&`, `|` and `~`.
  - Its restriction of NaN comparisons to `==` and `!=`.
  - The rewrite `x == nan` → `x != x`, `x != nan` → `x == x`.
  - Its byte-literal rewrite of strings.

Everything foreign to the core is a parameter:

- **`cast`:** the numpy/pytables cast of a CSV value into a column. It gives `None` where the assignment raises.
- **`sha1`:** the SHA-1 digest.
- **`parseFloat`:** Python's `float` on a text.
- **`render`:** `shlex` unquoting plus `str` of the UTF-8 bytes.

Numbers are exact reals. A float column value is `NaN`, `Inf` or `Fin(x)`.

## Where the code and its documentation disagree

The model follows the code in each case below.

- **Hashing.**
  - `_toint`'s docstring (`smtk/gm_database.py:770-771`) promises an integer, and `_hash` takes "bytes, str or numeric" values (788-789). Yet `_toint` of an infinite value raises `OverflowError`, because `int(round(inf))` is an error.
  - A missing id column raises too, and so does a cell of the wrong kind.
  - `Identity.ToInt`, `Identity.GetIds` and `Writer.WriteRow` fail in those cases, and such a failure aborts the whole parse (`Writer.ParseWith`) rather than being a row-level fault.
- **Missing counts.** The `parse` docstring relates a column's missing count to `total`. It actually counts rows that were written. A column no row supplies has count `written`, which is less than `total` when rows were dropped (`Writer.AbsentEverywhere`).
- **Id columns.** The id columns are themselves reported missing for every row that does not supply them, although `_writerow` fills them afterwards (`Writer.AbsentColumnMissing`).
- **Trailing logical operator.** A condition ending in `&`, `|` or `~` is rejected by the tokenizer's closing NEWLINE token, which fails the "operand must be parenthesised" test. The final check on `result[-1]` (1008) fires only when the tokenizer stops early with a `TokenError` that `_parse_condition` tolerates (1000-1006), as for the unclosed parenthesis of `((pga > 1) &`: then no closing token is added, and that check is what rejects. The model drops the closing tokens and reports `TrailingOperator` for both cases. The outcome is the same: a `ValueError`.

## Model

| member | source | states |
|---|---|---|
| Schema.MakeColumn | smtk/gm_database.py:83-154 | `_col` keeps name, bounds and shape; "DateTime" becomes a 19-character string column flagged as date-time; an explicit default wins; otherwise the class sentinel is used |
| Schema.MissingSentinels | smtk/gm_database.py:49-78 | without `dflt`, signed integers default to the type minimum, unsigned ones to 0, floats to NaN, strings and date-times to "", booleans to False |
| Schema.DefaultOfClass | smtk/gm_database.py:49-78 | the COLUMN_DEFAULTS entry of each numeric class is its minimum, 0 or NaN |
| Schema.SignedMinimumIsPower | smtk/gm_database.py:52-58 | the minimum of a signed class of b bits is −2^(b−1) |
| Schema.EnumSentinel | smtk/gm_database.py:139-146 | an enum column without `dflt` defaults to "", which is put in front of its value list exactly when the list lacks it |
| Schema.SignedMinima | smtk/gm_database.py:52-58 | the sentinels of Int8/16/32/64 are −128, −32768, −2147483648 and −9223372036854775808 |
| Schema.ColumnNamed | smtk/gm_database.py:157-236 | each declared column is built under its own name |
| Schema.GmTableWellFormed | smtk/gm_database.py:157-236 | the declared column names are distinct and stored in sorted order, and bounds sit only on numeric columns |
| Schema.ColumnNamedBounds | smtk/gm_database.py:177-178 | only the four coordinate columns carry bounds, symmetric ±90/±180 on Float64 scalars whose default is NaN |
| Text.Strip | smtk/gm_database.py:646 | `str.strip`: the result has no leading or trailing whitespace, equals the input when its ends are not blank and is empty for an all-blank input |
| Text.StripTrims | smtk/gm_database.py:646 | `str.strip` removes only whitespace: its result is a slice of the input with nothing but whitespace before and after it |
| Text.LowerText | smtk/gm_database.py:646 | `str.lower`: same length, no upper-case ASCII letter left, every other character kept in place |
| Text.LowerTextIdempotent | smtk/gm_database.py:646 | lowering a lowered text changes nothing |
| Text.LowerTextCaseless | smtk/gm_database.py:646 | two texts lower to the same text exactly when they agree up to the case of ASCII letters |
| Headers.MatchCallSpec | smtk/gm_database.py:278-284 | a header matches `^\s*name\s*\((.*)\)\s*$` (ignoring case) exactly when it has that shape, the argument being the text up to the last `)` |
| Headers.NoParenNoCall | smtk/gm_database.py:278-284 | a header without `(` never matches |
| Headers.MatchCall | smtk/gm_database.py:278-284 | a matched argument is shorter than the header by at least the name and the two parentheses, and contains no line break (`.` does not match one) |
| Headers.GetSaColumns | smtk/gm_database.py:556-569 | the spectral columns are exactly the `sa(...)` headers in order, each with its period read by `float`; the resolution fails exactly when some such period is unreadable |
| Headers.GetEventTimeColumns | smtk/gm_database.py:581-597 | a header named like the default column wins outright |
| Headers.EventTimeColumnsSpec | smtk/gm_database.py:581-597 | otherwise resolution succeeds exactly when year, month and day headers exist in any letter case; each part is taken from the last header naming it |
| Headers.TimeSlotsAreLastNamed | smtk/gm_database.py:587-591 | the loop's slot for each of the six parts holds the last header whose lower-case form names that part |
| Headers.AccelUnitsConvertible | smtk/gm_database.py:256-257 | the accepted PGA unit tokens are exactly the spellings the conversion recognises |
| Headers.PgaScanSpec | smtk/gm_database.py:637-668 | the first `pga(<unit>)` header decides: its unit if accepted, else an error; without one, the first plain "pga" and first "acceleration_unit" headers (any case, blanks trimmed) must both exist, with the distinct error for each absence |
| Headers.GetPgaColumn | smtk/gm_database.py:637-668 | `_get_pga_column` from a fresh scan: the first `pga(<unit>)` header wins, with its unit if accepted and an error otherwise; without one, the first plain `pga` and the first `acceleration_unit` header are returned, or the error naming what is absent |
| Headers.PlainHeadersAreNotCalls | smtk/gm_database.py:645-652 | a header taken as the plain pga or unit column is never also a `pga(...)` call |
| Units.FamilyOf | smtk/sm_utils.py:64-65 | a unit is of the gravity, m/s² or cm/s² family exactly when it is one of that family's spellings |
| Units.ConvertAccel | smtk/sm_utils.py:51-90 | the conversion fails exactly when either unit is unrecognised |
| Units.ConvertViaCentimetres | smtk/sm_utils.py:67-87 | every branch converts to cm/s² and then to the target family, with g = 9.80665 m/s² |
| Units.SameFamilyIdentity | smtk/sm_utils.py:67-87 | a conversion within one family returns the value unchanged |
| Units.ConvertRoundTrip | smtk/sm_utils.py:67-87 | converting to another unit and back gives the input |
| Units.ConvertCompose | smtk/sm_utils.py:67-87 | two conversions in a row equal the direct one |
| Units.ToDefaultTarget | smtk/sm_utils.py:51-87 | into the default cm/s² target, a value is multiplied by its unit's cm/s² factor |
| Units.Scale | smtk/sm_utils.py:67-87 | numpy multiplication by a positive factor: NaN stays NaN, an infinity keeps its sign, a finite value is scaled |
| Units.ConvertAccelFloat | smtk/sm_utils.py:51-90 | on a float, the conversion fails exactly when a unit is unrecognised; on a finite value it agrees with the real conversion |
| Units.FloatToDefaultTarget | smtk/sm_utils.py:51-87 | into cm/s², any float (NaN and infinities included) is scaled by its unit's factor |
| Units.DefaultTargetFactors | smtk/sm_utils.py:51 | with the default target, 1 g is 100·g cm/s² and 1 m/s² is 100 cm/s² |
| Units.Min | smtk/sm_utils.py:175 | `np.min`: a member of the sequence, no larger than any element |
| Units.Max | smtk/sm_utils.py:175 | `np.max`: a member of the sequence, no smaller than any element |
| Units.LastAtMost | smtk/sm_utils.py:178 | the last index whose period is at most the target |
| Units.FirstAtLeast | smtk/sm_utils.py:179 | the first index whose period is at least the target |
| Units.InterpolatedPeriod | smtk/sm_utils.py:167-182 | empty periods fail; a target outside [min, max] fails with an out-of-range error, and only then |
| Units.ExactIsTabulated | smtk/sm_utils.py:181-182 | an exact answer is the value of a tabulated period equal to the target |
| Units.ExactHit | smtk/sm_utils.py:178-182 | on increasing periods, a tabulated target returns its own value |
| Units.Bracketing | smtk/sm_utils.py:178-179 | on increasing periods, any other in-range target is bracketed by neighbouring indices whose periods lie strictly on either side |
| Rows.RowPgaFromUnitColumn | smtk/gm_database.py:493-495 | corrected: the PGA is present exactly when the value reads as a number and the row's unit is accepted, and is the value times that unit's cm/s² factor |
| Rows.AsWrittenAgreesOnExactHeader | smtk/gm_database.py:493-495 | the code as written and the corrected code agree when the unit header is spelt exactly `acceleration_unit` |
| Rows.MixedCaseUnitHeaderLosesPga | smtk/gm_database.py:493-495 | the header pair `PGA,Acceleration_Unit` is accepted, yet as written a row with PGA 1 g gets no PGA, while the corrected code gives 100·g cm/s² |
| Rows.MixedCaseHeadersAccepted | smtk/gm_database.py:645-668 | `_get_pga_column` accepts `PGA,Acceleration_Unit`, returning both header texts |
| Rows.PgaFromValue | smtk/gm_database.py:671-676 | `_get_pga` of a readable value in a recognised unit is the value times that unit's cm/s² factor |
| Rows.PgaFrom | smtk/gm_database.py:671-676 | a PGA is produced only from a recognised unit |
| Rows.RowUnitAsWritten | smtk/gm_database.py:493-494 | as written: the unit equals the corrected one for a `pga(<unit>)` header or the exact spelling `acceleration_unit`, and is the header text itself for any other spelling |
| Rows.RowPga | smtk/gm_database.py:493-496 | corrected: the PGA is present exactly when the unit is known and the value reads as a float, and is then the value (NaN and infinities included) scaled to cm/s² |
| Rows.RowPgaAsWritten | smtk/gm_database.py:493-496 | as written: under any accepted unit header other than exactly `acceleration_unit`, no row gets a PGA |
| Rows.UnitHeaderIsNoUnit | smtk/gm_database.py:493-494 | no accepted spelling of the unit header is itself a unit the conversion knows |
| Datetimes.DaysInMonth | smtk/gm_database.py:628 | months have 28 to 31 days, 29 exactly for February of a leap year |
| Datetimes.Strptime | smtk/gm_database.py:628 | whatever `strptime` returns is a valid calendar date-time |
| Datetimes.ParseAny | smtk/gm_database.py:624-633 | the formats are tried in order: success exactly when some format parses the text, the first one taking precedence |
| Datetimes.FormatIso | smtk/gm_database.py:634 | the normal form is 19 characters: digits with `-`, `-`, `T`, `:`, `:` at fixed places |
| Datetimes.IsoParses | smtk/gm_database.py:623-634 | the ISO format reads its own output back exactly |
| Datetimes.IsoParsesAnyCase | smtk/gm_database.py:623-628 | the `T` separator is accepted in either letter case |
| Datetimes.FormatIsoInjective | smtk/gm_database.py:634 | distinct date-times have distinct normal forms |
| Datetimes.NormalizeText | smtk/gm_database.py:612-634 | `normalize_dtime` on a text succeeds exactly when one of the four formats parses it, and then yields the ISO text of a valid date-time |
| Datetimes.NormalizeIso | smtk/gm_database.py:612-634 | a normal form normalises to itself |
| Datetimes.NormalizeLowerT | smtk/gm_database.py:612-634 | `…t…` with a lower-case separator normalises to the `T` form |
| Datetimes.NormalizeIdempotent | smtk/gm_database.py:612-634 | normalising twice is normalising once |
| Datetimes.NormalizeSpaced | smtk/gm_database.py:625-631 | date and time separated by one whitespace character normalise to the ISO text, by the second format |
| Datetimes.DateOnlyIsNotDateTime | smtk/gm_database.py:625-631 | a `YYYY-MM-DD` text matches neither date-time format |
| Datetimes.DateFormatParses | smtk/gm_database.py:625-631 | the date format reads a date back at midnight and rejects a day the month lacks |
| Datetimes.YearFormatLeavesRest | smtk/gm_database.py:625-631 | the year format fails on any text longer than its four digits, reporting the rest as unconverted |
| Datetimes.NormalizeDateOnly | smtk/gm_database.py:612-634 | a valid `YYYY-MM-DD` normalises to midnight of that day |
| Datetimes.NormalizeYearOnly | smtk/gm_database.py:612-634 | a four-digit year alone normalises to midnight of the first of January |
| Datetimes.NonexistentDateRejected | smtk/gm_database.py:632-633 | a `YYYY-MM-DD` naming a nonexistent day, such as 30 February, is unparsable |
| Datetimes.PyIntRoundTrip | smtk/gm_database.py:604-605 | `int(str(n)) == n` for every integer |
| Datetimes.PyIntPadded | smtk/gm_database.py:604-605 | zero-padded digits read back as their value |
| Datetimes.PyInt | smtk/gm_database.py:604-605 | `int` accepts a text whose stripped form is non-empty with digits after its first character; a negative result comes from a leading `-`; a stripped text starting with a digit fails only on a later non-digit |
| Datetimes.EventTime | smtk/gm_database.py:600-609 | with one column, the event time is `normalize_dtime` of that column's text, and fails when the row lacks the column; with year…second columns, the event time exists exactly when year, month and day are present, every column read holds an integer (a missing time part counts as 0) and they form a valid date-time, and is then its ISO text |
| Datetimes.EventTimeIsNormal | smtk/gm_database.py:600-609 | every event time produced is already in normal form |
| Datetimes.OneAndSixColumnsAgree | smtk/gm_database.py:600-609 | one `YYYY-MM-DD` column and separate year, month and day columns for the same date give the same event time |
| Numbers.RoundHalfEven | smtk/gm_database.py:772-773 | Python's `round`: within ½ of the input, ties going to the even neighbour |
| Numbers.RoundHalfEvenUnique | smtk/gm_database.py:772-773 | that rounding is the only integer with that property |
| Numbers.NatTextRoundTrip | smtk/gm_database.py:797-801 | decimal text of a natural number reads back as that number |
| Numbers.IntTextInjective | smtk/gm_database.py:797-801 | `str` of distinct integers differs |
| Identity.ToInt | smtk/gm_database.py:769-773 | `_toint` keeps NaN, fails on infinity, and otherwise gives an integer within ½ of value·10^decimals |
| Identity.SplitJoin | smtk/gm_database.py:793 | joining parts without `/` on `/` can be split back into the same parts |
| Identity.GetIdsDefined | smtk/gm_database.py:753-766 | `get_ids` succeeds exactly when its seven fields are present, numeric and non-infinite, and the time is text |
| Identity.IdsReadOnlyIdFields | smtk/gm_database.py:753-766 | rows agreeing on the seven id fields get identical ids |
| Identity.EventIdDependsOnlyOnEvent | smtk/gm_database.py:765-766 | the event id does not depend on the database name, the PGA or the station |
| Identity.StationIdDependsOnlyOnStation | smtk/gm_database.py:765-766 | the station id depends on the station coordinates alone |
| Identity.QuantumTextInjective | smtk/gm_database.py:797-801 | distinct quantised values (NaN included) are written as distinct texts |
| Identity.RecordSerialisationInjective | smtk/gm_database.py:776-794 | when database name and event time contain no `/`, equal digested texts come only from equal quantised records: an id collision can only be a SHA-1 collision |
| Identity.ItemText | smtk/gm_database.py:797-801 | `_tobytestr` keeps text as it is; a number's text is non-empty and free of `/`, NaN's starting with a lower-case letter (so not a digit), an integer's ending in a digit |
| Identity.SerialiseSplits | smtk/gm_database.py:793 | the text `_hash` digests splits back into the items' texts when none contains `/` |
| Identity.HashOfTexts | smtk/gm_database.py:776-794 | the digest depends only on the items' texts, so the bytes `5` and the number 5 hash alike |
| Identity.JoinInjective | smtk/gm_database.py:793 | `/`-joining parts free of `/` loses nothing |
| Writer.WriteCell | smtk/gm_database.py:711-742 | a column is missing exactly when absent, uncastable, or text in a column with a bound (the comparison raises TypeError); it is out of bound exactly when some element lies outside a bound; absent, uncastable and out-of-bound columns hold the sentinel, every other column the cast value |
| Writer.BoundsInclusive | smtk/gm_database.py:727-739 | values on the bounds, or NaN, are kept, and reported missing only when text meets a bound |
| Writer.BoundedTextReportedMissing | smtk/gm_database.py:725-742 | text in a column that carries a bound is reported missing, never out of bound, and stays as assigned |
| Writer.OneElementResetsCell | smtk/gm_database.py:733-737 | one element above the maximum resets the whole cell to the sentinel |
| Writer.WriteColumns | smtk/gm_database.py:711-742 | exactly the table's columns are stored; only table columns are reported |
| Writer.WriteColumnsAt | smtk/gm_database.py:711-742 | what is stored and reported for a column is decided by that column's own cell |
| Writer.WriteColumnsLists | smtk/gm_database.py:711-742 | each column is reported at most once and never as both missing and out of bound |
| Writer.WriteRow | smtk/gm_database.py:703-750 | `_writerow` succeeds exactly when the ids can be computed and the id columns exist; it returns the loop's two lists and stores every table column |
| Writer.StampIds | smtk/gm_database.py:745-748 | the three id columns hold the digests and no other column changes |
| Writer.CallerIdsIgnored | smtk/gm_database.py:745-748 | id values supplied by the input row make no difference to what is written |
| Writer.AbsentColumnMissing | smtk/gm_database.py:712-714 | a column the row lacks is reported missing, not out of bound, and holds its sentinel |
| Writer.SentinelWithinBounds | smtk/gm_database.py:730-737 | a float column's sentinel, written back on a bound violation, is NaN in every element (one per vector element) and so never itself out of bounds |
| Writer.StoredWithinBounds | smtk/gm_database.py:727-739 | a bounded scalar column with a NaN sentinel never stores a value outside its bounds |
| Writer.GmTableStoredWithinBounds | smtk/gm_database.py:727-739 | in the declared table, coordinates are always within bounds or NaN |
| Writer.ParseWith | smtk/gm_database.py:360-381 | `total` is the number of rows read |
| Writer.ParseRows | smtk/gm_database.py:319-382 | `parse` with `_writerow` counts every row read and fails exactly when some row that was not dropped fails to write |
| Writer.ParseWithFails | smtk/gm_database.py:363-368 | the parse fails exactly when some non-dropped row fails to write |
| Writer.ParseWithErrors | smtk/gm_database.py:371-373 | the error list holds, increasing, exactly the positions of the dropped rows |
| Writer.ParseWithCounts | smtk/gm_database.py:375-382 | each count is the number of written rows that reported the column; a listed column has a positive count; `written` is the number of rows not dropped |
| Writer.FlagsWithinWritten | smtk/gm_database.py:365-379 | per column, missing plus out-of-bound counts never exceed the written rows |
| Writer.Tally | smtk/gm_database.py:376-379 | a tally pass counts exactly the columns already counted plus the listed ones |
| Writer.TallyCount | smtk/gm_database.py:376-379 | one tally pass adds one to each listed column and touches no other |
| Writer.WriteRowReportsWellFormed | smtk/gm_database.py:703-750 | `_writerow` on a table with distinct columns reports each column at most once |
| Writer.AbsentEverywhere | smtk/gm_database.py:344-348 | a table column no row supplies is counted missing once per written row |
| Condition.TokenError | smtk/gm_database.py:982-996 | a token is accepted exactly when `&`/`|` follows `)`, a logical operator is followed by `~` or `(`, and NaN after a name and an operator is compared only by `==` or `!=` |
| Condition.ValidateFromNone | smtk/gm_database.py:979-1008 | checking from a position succeeds exactly when every later token passes and the condition does not end in a logical operator |
| Condition.ValidateSpec | smtk/gm_database.py:979-1008 | the compiler rejects a condition exactly when it breaks the logical-operator rules or compares NaN with another operator |
| Condition.CheckTokens | smtk/gm_database.py:979-1008 | the token loop reports the first error, if any |
| Condition.CompileCondition | smtk/gm_database.py:941-1022 | it fails exactly on a rejected condition, with that error; otherwise each output token keeps its kind, NaN comparisons become `x != x` / `x == x`, unprefixed strings are re-rendered as bytes and all else is unchanged |
| Condition.RenderStrings | smtk/gm_database.py:1011-1014 | every unprefixed string literal is re-rendered and every other token kept |
| Condition.RewriteNans | smtk/gm_database.py:1016-1020 | on an accepted condition, each NaN comparison becomes the swapped operator applied to the name two tokens back, as that name reads after earlier rewrites, and nothing else changes |
| Condition.Swap | smtk/gm_database.py:964 | `nan_operators` exchanges `==` and `!=` |
| Condition.ValidateNanSite | smtk/gm_database.py:989-996 | in an accepted condition every NaN comparison uses `==` or `!=` |
| Condition.NanRewriteMeaning | smtk/gm_database.py:948-952 | `x == nan` holds for no x, while its rewrite `x != x` holds exactly for NaN; dually for `!=` |
| Condition.ParenthesisedConjunctionAccepted | smtk/gm_database.py:945-947 | `(pga <= 0.5) & (pgv > 9.5)` is accepted |
| Condition.RejectedConditions | smtk/gm_database.py:982-996 | `pga <= 0.5 & pgv > 9.5` is rejected at `&`; `pga > nan` is rejected at `nan` |

## Findings

| source | as written | input that shows it | evidently intended | confidence | as-written member | corrected member |
|---|---|---|---|---|---|---|
| smtk/gm_database.py:493-494 | the row's unit column is read only when the unit header is spelt exactly `acceleration_unit`; otherwise the header text itself is used as the unit | headers `PGA,Acceleration_Unit` (accepted by `_get_pga_column`, which ignores case and blanks) and a row `PGA=1, Acceleration_Unit=g`: the unit becomes `Acceleration_Unit`, the conversion raises and `pga` is never assigned, so the record is stored with PGA missing | read the row's value of whichever column `_get_pga_column` returned as unit column | high, not executed | Rows.MixedCaseUnitHeaderLosesPga | Rows.RowPgaFromUnitColumn |

`Rows.RowUnitAsWritten` and `Rows.RowPgaAsWritten` model the code as
written. `Rows.RowUnit` and `Rows.RowPga` are the corrected definitions.

## Left out

- **File and table I/O.** Opening the flat file, `csv` reading, `_get_csv_reader`, HDF5 groups, `get_table`, `get_dbnames`, `records_where` and `read_where` are left out. Flushing is left out too. These are I/O, and the model starts from field names and row maps.
- **The rest of `_rows`.** Only the PGA unit selection and `_get_event_time` are modelled. Left out:
  - the log-space spectral interpolation `_get_sa`;
  - `parse_row`;
  - the sanity checks `_sanity_check` and `_pga_sa_unit_ok`.
  
  A dropped row appears as an empty row in `Writer.ParseWith`.
- **Rows.PgaFrom:** when the conversion raises, the row keeps its raw PGA text where the column is literally named `pga`. The model reports no PGA instead, since the raw text is cast later by `_writerow` (the `cast` parameter).
- **Row buffer defaults.** `_writerow` never writes `dflt` into a column that is absent or fails to cast (712-714, 741-742). The model assumes that each new row starts from every column's default. The code does not ensure this itself: `table.row` (366) is one object reused for every row and appended at 369, and what it holds after `append` is up to pytables' row buffer, which is not modelled. `Writer.WriteCell` and `Writer.AbsentColumnMissing` ("holds its sentinel") rest on that assumption.
- **Numeric casting.** numpy/pytables casting, broadcasting and float32/float16 rounding are the `cast` parameter. Values are exact reals.
- **SHA-1.** SHA-1 is the `sha1` parameter. Its internals, and the exact `str` of a Python float, are not modelled. The hashed quanta are integers or NaN, written as Python writes them.
- **Identity.ToInt:** stated as "within ½ of value·10^decimals", with ties resolved by `Numbers.RoundHalfEven`. The 53-bit rounding of `10**decimals * value` is not modelled.
- **Units.InterpolatedPeriod:** returns the bracketing indices instead of the log–log interpolated value. Floating-point logarithms are outside the model, and NaN targets are not considered.
- **Datetimes.Strptime:** models only the directives the four formats use (`%Y %m %d %H %M %S`, literals, blanks), with the digit alternatives of CPython's `_strptime` regular expressions. Locale, `%y`, weekday and time-zone directives are left out.
- **Datetimes.FormatIso:** pads the year to four digits. `strftime`'s padding of years below 1000 is platform dependent.
- **Text.Strip / Text.LowerText:** ASCII whitespace and ASCII case only. Python's Unicode case mapping and Unicode whitespace are left out, as are Unicode digits in `int`.
- **Datetimes.PyInt:** accepts blanks, a sign and ASCII digits. The digit-group underscores that `int` also accepts are left out.
- **Tokenization.** The Python tokenizer, `untokenize`, `shlex` and the `TokenError` recovery of `_parse_condition` are left out. The compiler works on a token sequence, and `render` stands for the string re-rendering.
- **The rest of `sm_utils.py`.** `get_time_vector`, `nextpow2`, `get_velocity_displacement`, plotting and pickling, and `sm_oq_utils.py` are outside the modelled core.
- **CSV details.** CSV `None` values (short rows) and `DictReader` extra fields are left out. A row is a map from header to text.

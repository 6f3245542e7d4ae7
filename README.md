# NYC taxi trip line parser — a Dafny model

This project models `parse_element` from the Beam pipeline that loads New York
City taxi trips into BigQuery (`src/df_bq_write_api.py`). `parse_element` takes
one CSV line of a trip. It does three things:

- It splits the line with Python's `csv.reader`, using the default dialect.
- It rejects the line unless it has exactly as many columns as `TaxiSchema`
  has fields (19).
- It builds a `TaxiSchema` record. Each column goes through `check_type`,
  which coerces it to the field's declared type (`str`, `int` or `float`) and
  gives null when the coercion raises `ValueError`. The two timestamp
  columns first lose their trailing `" UTC"` through `rstrip(' UTC')`.

The model is pure, as the source is. Datatypes stand for the values, and
functions stand for the operations. Lemmas state what the operations promise.

| file | module | what it holds |
|---|---|---|
| `wrappers.dfy` | `Wrappers` | `Option` and `Result` |
| `text.dfy` | `Text` | `str.rstrip`, `str.lstrip` and `str.strip` with a character set |
| `numerals.dfy` | `Numerals` | `int(s)` and `float(s)` on strings, with `None` where Python raises `ValueError` |
| `csv.dfy` | `Csv` | the `csv.reader` state machine for one line (default dialect), and the `csv.writer` quoting used as its inverse |
| `taxi.dfy` | `Taxi` | `TaxiSchema`, `check_type`, `parse_element` |

Notes on the model:

- **Records.** `TaxiRecord` has one `Option` field per `TaxiSchema` field.
  `Values` reads a record by position, because a `NamedTuple` is a tuple.
  `Schema(i)` gives the name and declared type of column `i`.
- **Coercion.** `Coerce(i, column)` is `check_type` applied to column `i`
  with the type `TaxiSchema` declares at `i`. `Cells` applies it to every
  column. `RecordOf` is the keyword call `TaxiSchema(vendor_id=..., ...)`.
- **Errors.** `ParseElement` returns `Failure` where the source raises. A CSV
  error gives `CsvFailure`. A wrong column count gives `FieldCountMismatch`,
  which carries the count and the line.
- **Floats.** A float is a `Decimal`: an exact `mantissa * 10^exponent`, or
  an infinity, or NaN.

Three details of the code that the model keeps as written:

- **Timestamps.** `rstrip(' UTC')` strips any trailing run of the
  characters `' '`, `'U'`, `'T'` and `'C'`, not the suffix `" UTC"`
  (`Taxi.UtcStripIsCharacterSet`). For a timestamp ending in a digit, this
  removes exactly the suffix (`Taxi.UtcSuffixRemoved`).
- **Large numbers.** `int` of a string has no overflow. It fails only beyond
  Python's 4300-digit limit on converting a string to an integer
  (`Numerals.MaxStrDigits`). `float` overflows to infinity rather than
  failing, so a large number never becomes null.
- **The error message.** The column-count error says "Not enough fields"
  also when there are too many columns. The model keeps the count and the
  line, not the message.

Determinism is not stated as a lemma: every operation is a Dafny function,
so the same line always gives the same result.

## Model

| member | source | states |
|---|---|---|
| `Taxi.ParseElement` | src/df_bq_write_api.py:37-78 | success exactly when the CSV split succeeds with 19 columns; then field i of the record is column i coerced to the type declared at position i |
| `Taxi.Schema` | src/df_bq_write_api.py:15-34 | the `TaxiSchema` fields in declaration order: name and declared type (`str`, `int` or `float`) of each of the 19 |
| `Taxi.Prepared` | src/df_bq_write_api.py:56-57 | columns 1 and 2, the timestamps, go through `rstrip(' UTC')` before coercion; every other column is coerced as read |
| `Taxi.RecordOf` | src/df_bq_write_api.py:54-74 | the keyword call `TaxiSchema(...)`: coerced column i becomes field i (stated by `Taxi.ValuesOfRecordOf`) |
| `Taxi.BuildRecord` | src/df_bq_write_api.py:54-74 | the record built from 19 columns, each through `check_type` (stated field by field by `Taxi.FieldsByDeclaredType`) |
| `Taxi.CsvErrorPropagates` | src/df_bq_write_api.py:38-39 | a `csv` error escapes `parse_element` unchanged |
| `Taxi.WrongFieldCountRejected` | src/df_bq_write_api.py:40-41 | a line of any count other than 19 is rejected, naming the count and the line |
| `Taxi.EmptyLineRejected` | src/df_bq_write_api.py:38-41 | an empty line reads as no columns and is rejected with count 0 |
| `Taxi.PlainLineAcceptedIffEighteenCommas` | src/df_bq_write_api.py:38-41 | a line without quotes or line breaks, no longer as a whole than the field size limit, is accepted exactly when it has 18 commas |
| `Taxi.ParseWrittenRow` | src/df_bq_write_api.py:37-78 | any 19 columns written as a CSV row parse back to the record built from exactly those columns |
| `Taxi.CheckType` | src/df_bq_write_api.py:43-50 | the result has the requested type or is null; `str` is never null and keeps the column |
| `Taxi.Coerce` | src/df_bq_write_api.py:54-73 | column i is coerced to the type `TaxiSchema` declares at position i |
| `Taxi.Cells` | src/df_bq_write_api.py:54-73 | the coerced columns fit the schema, position by position |
| `Taxi.Values` | src/df_bq_write_api.py:15-34 | a record read by position has one value per schema field |
| `Taxi.ValuesOfRecordOf` | src/df_bq_write_api.py:54-73 | reading the built record by position gives back the coerced columns in order |
| `Taxi.RecordOfValues` | src/df_bq_write_api.py:15-34 | every record is the one built from its own positional view, so the named and positional views agree |
| `Taxi.FieldsByDeclaredType` | src/df_bq_write_api.py:54-73 | every field is its column parsed as the declared type: `int`, `float`, or text kept |
| `Taxi.TextColumnsVerbatim` | src/df_bq_write_api.py:55-62 | after a successful parse, `vendor_id`, `rate_code` and `payment_type` are never null and equal their columns, even when empty |
| `Taxi.TimestampsTrimmed` | src/df_bq_write_api.py:56-57 | both timestamps are never null; each is a prefix of its column, only `' UTC'` characters were cut, none ends the result, and cutting again changes nothing |
| `Taxi.UtcSuffixRemoved` | src/df_bq_write_api.py:56-57 | a timestamp not ending in `' '`, `'U'`, `'T'` or `'C'` comes back from `rstrip(' UTC')` without its `" UTC"` suffix |
| `Taxi.UtcStripIsCharacterSet` | src/df_bq_write_api.py:56-57 | stripping `stamp + " UTC"` is the same as stripping `stamp`: a set of characters is removed, not a suffix |
| `Taxi.OnlyNumbersAreNull` | src/df_bq_write_api.py:43-50 | a null field is always an `int` or `float` field |
| `Taxi.ColumnsAreIndependent` | src/df_bq_write_api.py:54-73 | changing one column changes only its own field; a column that fails to parse nulls only its own field |
| `Taxi.IntColumnOfString` | src/df_bq_write_api.py:58-73 | an `int` column holding `str(n)` is `n` |
| `Taxi.FloatColumnOfPointNumeral` | src/df_bq_write_api.py:63-69 | a `float` column holding `whole.fraction` is its digits scaled by `10^-len(fraction)` |
| `Taxi.SampleTimestamp` | src/df_bq_write_api.py:56-57 | `2015-01-01 00:00:00 UTC` becomes `2015-01-01 00:00:00` |
| `Taxi.SamplePassengerCount` | src/df_bq_write_api.py:58 | the column `1` gives passenger count 1 |
| `Taxi.SampleDistance` | src/df_bq_write_api.py:59 | the column `2` gives trip distance 2 |
| `Taxi.SampleMonth` | src/df_bq_write_api.py:73 | the column `1` gives data file month 1 |
| `Taxi.SampleYear` | src/df_bq_write_api.py:72 | the column `2015` gives year 2015 |
| `Taxi.SampleFare` | src/df_bq_write_api.py:63 | the fare `10.5` is 105 * 10^-1 |
| `Taxi.SampleEmptyPassengerCount` | src/df_bq_write_api.py:58 | an empty passenger count is null |
| `Taxi.SampleDecimalDistance` | src/df_bq_write_api.py:59 | a trip distance of `2.5` is null, the column being declared `int` |
| `Taxi.SampleWordFare` | src/df_bq_write_api.py:63 | a fare of `abc` is null |
| `Taxi.SampleLine` | src/df_bq_write_api.py:37-78 | the sample row `VTS,2015-01-01 00:00:00 UTC,...,2015,1`, written as one line, parses; no field is null; vendor `VTS`, one passenger, distance 2, year 2015, month 1 |
| `Taxi.PlainNumeralsNotNull` | src/df_bq_write_api.py:43-73 | a line whose `int` columns are digit strings and whose `float` columns are digits around a point has no null field |
| `Csv.SplitWriteRow` | src/df_bq_write_api.py:38-39 | `csv.reader` reads back any non-empty row `csv.writer` writes within the field size limit |
| `Csv.Split` | src/df_bq_write_api.py:38-39 | `next(csv.reader([element]))`: the fields of the one line, or the `csv.Error` it raises; a quoted field left open at the end of the line is kept as it stands, and an empty line has no fields (properties in the `Csv` rows below) |
| `Csv.Feed` | src/df_bq_write_api.py:38-39 | one character through the reader's state machine (default dialect, not strict): start of record, start of field, unquoted field, quoted field, quote inside a quoted field, after a line break; a field reaching the size limit, or text after a line break, raises |
| `Csv.FeedAll` | src/df_bq_write_api.py:38-39 | the characters of the line fed in order, stopping at the first error (`Csv.FeedAllAppend`) |
| `Csv.EndOfLine` | src/df_bq_write_api.py:38-39 | the reader at the end of the line: a field in progress is saved, a quoted field stays open |
| `Csv.SplitPlainLine` | src/df_bq_write_api.py:38-39 | a line without quotes or line breaks, no longer as a whole than the field size limit, splits at its commas, one more column than commas |
| `Csv.CommaFieldsRejoin` | src/df_bq_write_api.py:38-39 | joining the comma-split pieces with commas gives back the line |
| `Csv.LineBreakInUnquotedField` | src/df_bq_write_api.py:38-39 | a line break followed by more text outside quotes is the error "new-line character seen in unquoted field" |
| `Csv.UnterminatedQuote` | src/df_bq_write_api.py:38-39 | an opening quote that is never closed yields the rest of the line as the one column |
| `Csv.FeedAllAppend` | src/df_bq_write_api.py:38-39 | feeding two pieces of a line one after the other is feeding their concatenation |
| `Csv.FeedWrittenField` | src/df_bq_write_api.py:38-39 | a field as the writer writes it reads back as that field and nothing else |
| `Csv.FeedJoined` | src/df_bq_write_api.py:38-39 | written fields joined by commas read back as those fields in order |
| `Csv.Escape` | src/df_bq_write_api.py:38-39 | the writer doubles every quote: the field grows by exactly one character per quote it holds |
| `Csv.EscapeWithoutQuotes` | src/df_bq_write_api.py:38-39 | doubling quotes changes nothing in a field without quotes |
| `Numerals.ParseIntOfString` | src/df_bq_write_api.py:46 | `int(str(n)) == n` for every integer within the digit limit |
| `Numerals.ParseInt` | src/df_bq_write_api.py:46-48 | `int(column)`: ASCII whitespace around an optional sign and 1 to 4300 ASCII digits; `None` where `int` raises `ValueError` (properties in the `Numerals` rows below) |
| `Numerals.ParseFloat` | src/df_bq_write_api.py:46-48 | `float(column)`: ASCII whitespace around an optional sign and either `inf`, `infinity` or `nan` in any case, or a finite literal; `None` where `float` raises `ValueError` |
| `Numerals.ParseFinite` | src/df_bq_write_api.py:46 | a finite `float` literal: a mantissa, then optionally `e` or `E` and an exponent; the value is the mantissa's digits scaled by `10^(exponent - digits after the point)` |
| `Numerals.ParseMantissa` | src/df_bq_write_api.py:46 | `digits[.digits]` or `.digits`, with at least one digit in all |
| `Numerals.ParseExponent` | src/df_bq_write_api.py:46 | an optional sign and at least one digit |
| `Numerals.ParseIntOfDigits` | src/df_bq_write_api.py:46 | an optional `+` or `-` followed by 1 to 4300 digits is the value of the digits, negated after `-` |
| `Numerals.ParseIntIgnoresPadding` | src/df_bq_write_api.py:46 | whitespace around a column never changes `int` |
| `Numerals.ParseFloatIgnoresPadding` | src/df_bq_write_api.py:46 | whitespace around a column never changes `float` |
| `Numerals.ParseIntRejectsForeignChar` | src/df_bq_write_api.py:46-48 | any character other than a digit, whitespace or a sign makes `int` raise `ValueError` |
| `Numerals.ParseFloatRejectsForeignChar` | src/df_bq_write_api.py:46-48 | any character that is not whitespace, a digit, `.`, `e`, `E`, a sign or a letter of `inf`, `infinity` or `nan` makes `float` raise `ValueError` |
| `Numerals.SeparatorIsNotPadding` | src/df_bq_write_api.py:46-48 | `int("\x1c5")` and `float("\x1c5")` raise `ValueError`: the separator 0x1C is not stripped as whitespace |
| `Numerals.ParseIntRejectsBlank` | src/df_bq_write_api.py:46-48 | an empty or blank column makes `int` raise `ValueError` |
| `Numerals.ParseFloatRejectsBlank` | src/df_bq_write_api.py:46-48 | an empty or blank column makes `float` raise `ValueError` |
| `Numerals.ParseIntRejectsLongDigits` | src/df_bq_write_api.py:46-48 | more than 4300 digits make `int` raise `ValueError` |
| `Numerals.ParseFloatOfInteger` | src/df_bq_write_api.py:46 | every string `int` accepts, `float` accepts with the same value |
| `Numerals.ParseFloatOfPointNumeral` | src/df_bq_write_api.py:46 | `[-]whole.fraction` reads as its digits scaled by `10^-len(fraction)` |
| `Numerals.ParseFloatOfPointAt` | src/df_bq_write_api.py:46 | a numeral with its point at position k reads as its digits scaled by the count of digits after the point |
| `Numerals.DigitsValueOfNatToDigits` | src/df_bq_write_api.py:46 | the digits `str` writes for `n` read back as `n` |
| `Numerals.IntRejectsDecimalSample` | src/df_bq_write_api.py:46-48 | `int("2.5")` raises `ValueError` |
| `Numerals.IntRejectsWordAndEmptySample` | src/df_bq_write_api.py:46-48 | `int("abc")` and `int("")` raise `ValueError` |
| `Numerals.FloatRejectsWordSample` | src/df_bq_write_api.py:46-48 | `float("abc")` raises `ValueError` |
| `Numerals.FloatSample` | src/df_bq_write_api.py:46 | `float("2.5")` is 25 * 10^-1 |
| `Text.RStrip` | src/df_bq_write_api.py:56-57 | the result is a prefix of the input, does not end in a stripped character, and only stripped characters were removed |
| `Text.RStripUnique` | src/df_bq_write_api.py:56-57 | those three properties determine `rstrip` completely |
| `Text.RStripIdempotent` | src/df_bq_write_api.py:56-57 | stripping twice is stripping once |
| `Text.RStripAppend` | src/df_bq_write_api.py:56-57 | appending stripped characters does not change the result |

## Left out

- `run` (src/df_bq_write_api.py:81-129): the Beam pipeline, its options, reading from Cloud Storage and writing to BigQuery are I/O.
- The `print` of the exception in src/df_bq_write_api.py:74-77 is output only. The exception is re-raised unchanged, so the model has no separate path for it. Nothing inside the `try` raises anyway: `check_type` catches every `ValueError` that `int` and `float` raise on a string.
- The text of the column-count exception is not modelled; `FieldCountMismatch` carries the count and the line instead.
- Numerals.ParseFloat: values are exact decimals. Rounding to an IEEE double, overflow to infinity and underflow to zero are not modelled.
- Numerals.ParseInt: underscores between digits (`1_000`), non-ASCII digits and non-ASCII whitespace, all of which Python accepts, are treated as invalid.
- Numerals.ParseFloat: the same as for `int`. In addition, hexadecimal and other spellings Python does not accept in `float` are rejected, as in Python.
- Csv.Split: only the default dialect is modelled: `,` delimiter, `"` quote, doubled-quote escaping, no `strict` mode, `skipinitialspace` off, and the default field size limit of 131072. NUL characters are treated like any other character (Python 3.11 and later).
- Csv.WriteRow is `csv.writer` with the default dialect and minimal quoting. It appears only as the partner of the reader for the round trip, not as part of the source.
- Taxi.SampleLine: the sample is the 19 columns joined by commas (`Csv.JoinFields`), not the line as one 112-character literal, and it states the integer values; the fare and the timestamps of the same columns are stated by Taxi.SampleFare and Taxi.SampleTimestamp.

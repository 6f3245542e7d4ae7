/** `parse_element`: one CSV line of a taxi trip becomes a `TaxiSchema`
    record of 19 nullable fields, or the line is rejected. */
module Taxi {
  import opened Wrappers
  import Text
  import Numerals
  import Csv

  /** The Python type a column is coerced to by `check_type`. */
  datatype Kind = Str | Int | Float

  datatype Column = Column(name: string, kind: Kind)

  const FieldCount: nat := 19

  /** Column i of `TaxiSchema`: its name and declared type. */
  function Schema(i: nat): Column
    requires i < FieldCount
  {
    match i
    case 0 => Column("vendor_id", Str)
    case 1 => Column("pickup_datetime", Str)
    case 2 => Column("dropoff_datetime", Str)
    case 3 => Column("passenger_count", Int)
    case 4 => Column("trip_distance", Int)
    case 5 => Column("rate_code", Str)
    case 6 => Column("store_and_fwd_flag", Int)
    case 7 => Column("payment_type", Str)
    case 8 => Column("fare_amount", Float)
    case 9 => Column("extra", Float)
    case 10 => Column("mta_tax", Float)
    case 11 => Column("tip_amount", Float)
    case 12 => Column("tolls_amount", Float)
    case 13 => Column("imp_surcharge", Float)
    case 14 => Column("total_amount", Float)
    case 15 => Column("pickup_location_id", Int)
    case 16 => Column("dropoff_location_id", Int)
    case 17 => Column("data_file_year", Int)
    case _ => Column("data_file_month", Int)
  }

  /** `TaxiSchema`: every field is `Optional`. */
  datatype TaxiRecord = TaxiRecord(
    vendorId: Option<string>,
    pickupDatetime: Option<string>,
    dropoffDatetime: Option<string>,
    passengerCount: Option<int>,
    tripDistance: Option<int>,
    rateCode: Option<string>,
    storeAndFwdFlag: Option<int>,
    paymentType: Option<string>,
    fareAmount: Option<Numerals.Decimal>,
    extra: Option<Numerals.Decimal>,
    mtaTax: Option<Numerals.Decimal>,
    tipAmount: Option<Numerals.Decimal>,
    tollsAmount: Option<Numerals.Decimal>,
    impSurcharge: Option<Numerals.Decimal>,
    totalAmount: Option<Numerals.Decimal>,
    pickupLocationId: Option<int>,
    dropoffLocationId: Option<int>,
    dataFileYear: Option<int>,
    dataFileMonth: Option<int>)

  /** A record field of any of the three types; `None` is null. */
  datatype Cell =
    | StrCell(s: Option<string>)
    | IntCell(i: Option<int>)
    | FloatCell(d: Option<Numerals.Decimal>)

  function KindOf(c: Cell): Kind
  {
    match c
    case StrCell(_) => Str
    case IntCell(_) => Int
    case FloatCell(_) => Float
  }

  predicate IsNull(c: Cell)
  {
    match c
    case StrCell(o) => o.None?
    case IntCell(o) => o.None?
    case FloatCell(o) => o.None?
  }

  /** The characters `rstrip(' UTC')` removes from the end of a timestamp. */
  const UtcChars: set<char> := {' ', 'U', 'T', 'C'}

  /** Errors `parse_element` raises. */
  datatype ParseError =
    | CsvFailure(reason: Csv.CsvError)
    | FieldCountMismatch(count: nat, element: string)

  // ---------------------------------------------------------------------------
  // check_type

  /** `check_type(field, str)`: `str` of a string never raises. */
  function CheckStr(field: string): Option<string>
  {
    Some(field)
  }

  /** `check_type(field, int)`: null when `int` raises `ValueError`. */
  function CheckInt(field: string): Option<int>
  {
    Numerals.ParseInt(field)
  }

  /** `check_type(field, float)`: null when `float` raises `ValueError`. */
  function CheckFloat(field: string): Option<Numerals.Decimal>
  {
    Numerals.ParseFloat(field)
  }

  /** `check_type(field, field_type)` for any of the three types: a value of
      that type, or null; a `str` coercion is never null. */
  function CheckType(field: string, kind: Kind): (r: Cell)
    ensures KindOf(r) == kind
    ensures kind == Str ==> r == StrCell(Some(field))
  {
    match kind
    case Str => StrCell(CheckStr(field))
    case Int => IntCell(CheckInt(field))
    case Float => FloatCell(CheckFloat(field))
  }

  // ---------------------------------------------------------------------------
  // parse_element

  /** Columns 1 and 2, the two timestamps, go through `rstrip(' UTC')` before
      coercion; the other columns are coerced as they are. */
  function Prepared(i: nat, column: string): string
  {
    if i == 1 || i == 2 then Text.RStrip(column, UtcChars) else column
  }

  /** Column i coerced as `parse_element` coerces it: `check_type` to the
      type `TaxiSchema` declares at position i. */
  function Coerce(i: nat, column: string): (c: Cell)
    requires i < FieldCount
    ensures KindOf(c) == Schema(i).kind
  {
    CheckType(Prepared(i, column), Schema(i).kind)
  }

  /** Cells that fit the schema, position by position. */
  predicate WellTyped(cells: seq<Cell>)
  {
    |cells| == FieldCount && forall i :: 0 <= i < FieldCount ==> KindOf(cells[i]) == Schema(i).kind
  }

  /** The coerced columns of a line, in order. */
  function Cells(fields: seq<string>): (cells: seq<Cell>)
    requires |fields| == FieldCount
    ensures WellTyped(cells)
  {
    seq(FieldCount, i requires 0 <= i < FieldCount => Coerce(i, fields[i]))
  }

  /** The `TaxiSchema(...)` keyword call: cell i becomes field i. */
  function RecordOf(cells: seq<Cell>): TaxiRecord
    requires WellTyped(cells)
  {
    TaxiRecord(
      vendorId := cells[0].s,
      pickupDatetime := cells[1].s,
      dropoffDatetime := cells[2].s,
      passengerCount := cells[3].i,
      tripDistance := cells[4].i,
      rateCode := cells[5].s,
      storeAndFwdFlag := cells[6].i,
      paymentType := cells[7].s,
      fareAmount := cells[8].d,
      extra := cells[9].d,
      mtaTax := cells[10].d,
      tipAmount := cells[11].d,
      tollsAmount := cells[12].d,
      impSurcharge := cells[13].d,
      totalAmount := cells[14].d,
      pickupLocationId := cells[15].i,
      dropoffLocationId := cells[16].i,
      dataFileYear := cells[17].i,
      dataFileMonth := cells[18].i)
  }

  /** The record `parse_element` builds from a line of 19 columns. */
  function BuildRecord(fields: seq<string>): TaxiRecord
    requires |fields| == FieldCount
  {
    RecordOf(Cells(fields))
  }

  /** Field i of the record, as `TaxiSchema` is a tuple. */
  function ValueAt(r: TaxiRecord, i: nat): Cell
    requires i < FieldCount
  {
    if i == 0 then StrCell(r.vendorId)
    else if i == 1 then StrCell(r.pickupDatetime)
    else if i == 2 then StrCell(r.dropoffDatetime)
    else if i == 3 then IntCell(r.passengerCount)
    else if i == 4 then IntCell(r.tripDistance)
    else if i == 5 then StrCell(r.rateCode)
    else if i == 6 then IntCell(r.storeAndFwdFlag)
    else if i == 7 then StrCell(r.paymentType)
    else if i == 8 then FloatCell(r.fareAmount)
    else if i == 9 then FloatCell(r.extra)
    else if i == 10 then FloatCell(r.mtaTax)
    else if i == 11 then FloatCell(r.tipAmount)
    else if i == 12 then FloatCell(r.tollsAmount)
    else if i == 13 then FloatCell(r.impSurcharge)
    else if i == 14 then FloatCell(r.totalAmount)
    else if i == 15 then IntCell(r.pickupLocationId)
    else if i == 16 then IntCell(r.dropoffLocationId)
    else if i == 17 then IntCell(r.dataFileYear)
    else IntCell(r.dataFileMonth)
  }

  /** The record's fields by position. */
  function Values(r: TaxiRecord): (v: seq<Cell>)
    ensures |v| == FieldCount
  {
    seq(FieldCount, i requires 0 <= i < FieldCount => ValueAt(r, i))
  }

  /** `parse_element(element)`. */
  function ParseElement(element: string): (r: Result<TaxiRecord, ParseError>)
    ensures r.Success? <==> Csv.Split(element).Success? && |Csv.Split(element).value| == FieldCount
    ensures r.Success? ==> Values(r.value) == Cells(Csv.Split(element).value)
  {
    match Csv.Split(element)
    case Failure(e) => Failure(CsvFailure(e))
    case Success(fields) =>
      if |fields| != FieldCount then Failure(FieldCountMismatch(|fields|, element))
      else
        ValuesOfRecordOf(Cells(fields));
        Success(BuildRecord(fields))
  }

  // ---------------------------------------------------------------------------
  // Properties

  /** Reading a record by position gives back the cells it was built from. */
  lemma ValuesOfRecordOf(cells: seq<Cell>)
    requires WellTyped(cells)
    ensures Values(RecordOf(cells)) == cells
  {
    var r := RecordOf(cells);
    forall i | 0 <= i < FieldCount
      ensures ValueAt(r, i) == cells[i]
    {
      assert KindOf(cells[i]) == Schema(i).kind;
    }
  }

  /** Building a record from its positional view gives back the record. */
  lemma RecordOfValues(r: TaxiRecord)
    ensures WellTyped(Values(r)) && RecordOf(Values(r)) == r
  {
    ValuesWellTyped(r);
  }

  /** Every value of a record has the type its schema field declares. */
  lemma ValuesWellTyped(r: TaxiRecord)
    ensures WellTyped(Values(r))
  {
    var v := Values(r);
    forall i | 0 <= i < FieldCount
      ensures KindOf(v[i]) == Schema(i).kind
    {
      assert v[i] == ValueAt(r, i);
    }
  }

  /** Cell i of a line is column i coerced. */
  lemma CellAt(fields: seq<string>, i: nat)
    requires |fields| == FieldCount && i < FieldCount
    ensures Cells(fields)[i] == Coerce(i, fields[i])
  {
  }

  lemma CoerceText(i: nat, column: string)
    requires i < FieldCount && Schema(i).kind == Str
    ensures Coerce(i, column) == StrCell(CheckStr(Prepared(i, column)))
  {
  }

  lemma CoerceInt(i: nat, column: string)
    requires i < FieldCount && Schema(i).kind == Int
    ensures Coerce(i, column) == IntCell(CheckInt(column))
  {
  }

  lemma CoerceFloat(i: nat, column: string)
    requires i < FieldCount && Schema(i).kind == Float
    ensures Coerce(i, column) == FloatCell(CheckFloat(column))
  {
  }

  /** Cell i of an integer column is `int` of the column, null where it raises. */
  lemma IntCellAt(fields: seq<string>, i: nat)
    requires |fields| == FieldCount && i < FieldCount && Schema(i).kind == Int
    ensures Cells(fields)[i] == IntCell(Numerals.ParseInt(fields[i]))
  {
    CellAt(fields, i);
    CoerceInt(i, fields[i]);
  }

  /** Cell i of a decimal column is `float` of the column, null where it raises. */
  lemma FloatCellAt(fields: seq<string>, i: nat)
    requires |fields| == FieldCount && i < FieldCount && Schema(i).kind == Float
    ensures Cells(fields)[i] == FloatCell(Numerals.ParseFloat(fields[i]))
  {
    CellAt(fields, i);
    CoerceFloat(i, fields[i]);
  }

  /** The text fields of a record, by name and by position. */
  lemma TextFieldsAt(r: TaxiRecord)
    ensures Values(r)[0] == StrCell(r.vendorId) && Values(r)[1] == StrCell(r.pickupDatetime)
    ensures Values(r)[2] == StrCell(r.dropoffDatetime) && Values(r)[5] == StrCell(r.rateCode)
    ensures Values(r)[7] == StrCell(r.paymentType)
  {
  }

  /** After a successful parse, text field i is text column i, prepared. */
  lemma TextCellOfParse(element: string, r: TaxiRecord, i: nat)
    requires ParseElement(element) == Success(r)
    requires i < FieldCount && Schema(i).kind == Str
    ensures Values(r)[i] == StrCell(Some(Prepared(i, Csv.Split(element).value[i])))
  {
    var fields := Csv.Split(element).value;
    CellAt(fields, i);
    CoerceText(i, fields[i]);
  }

  /** Field i of the record is column i parsed as the type the schema
      declares at position i: `int` and `float` columns parsed, null when
      the parse fails; text columns kept, timestamps trimmed. */
  lemma FieldsByDeclaredType(fields: seq<string>, i: nat)
    requires |fields| == FieldCount && i < FieldCount
    ensures Schema(i).kind == Int ==> Values(BuildRecord(fields))[i] == IntCell(Numerals.ParseInt(fields[i]))
    ensures Schema(i).kind == Float ==> Values(BuildRecord(fields))[i] == FloatCell(Numerals.ParseFloat(fields[i]))
    ensures Schema(i).kind == Str ==> Values(BuildRecord(fields))[i] == StrCell(Some(Prepared(i, fields[i])))
  {
    ValuesOfRecordOf(Cells(fields));
    CellAt(fields, i);
    match Schema(i).kind
    case Int => CoerceInt(i, fields[i]);
    case Float => CoerceFloat(i, fields[i]);
    case Str => CoerceText(i, fields[i]);
  }

  /** A CSV error propagates out of `parse_element` unchanged. */
  lemma CsvErrorPropagates(element: string, e: Csv.CsvError)
    requires Csv.Split(element) == Failure(e)
    ensures ParseElement(element) == Failure(CsvFailure(e))
  {
  }

  /** A line of any other number of columns than 19 raises, naming the count
      and the line. */
  lemma WrongFieldCountRejected(element: string, fields: seq<string>)
    requires Csv.Split(element) == Success(fields) && |fields| != FieldCount
    ensures ParseElement(element) == Failure(FieldCountMismatch(|fields|, element))
  {
  }

  /** An empty line has no columns at all and is rejected. */
  lemma EmptyLineRejected()
    ensures ParseElement([]) == Failure(FieldCountMismatch(0, []))
  {
    Csv.SplitEmptyLine();
  }

  /** A line with no quotes and no line break has one column more than it
      has commas, so it is accepted exactly when it has 18 commas. */
  lemma PlainLineAcceptedIffEighteenCommas(line: string)
    requires line != [] && Csv.PlainLine(line)
    ensures ParseElement(line).Success? <==> Csv.Occurrences(line, Csv.Delimiter) == FieldCount - 1
  {
    Csv.SplitPlainLine(line);
  }

  /** Any 19 columns, written as a CSV row, are parsed back to the record
      built from exactly those columns. */
  lemma ParseWrittenRow(fields: seq<string>)
    requires |fields| == FieldCount && Csv.FitsLimit(fields)
    ensures ParseElement(Csv.WriteRow(fields)) == Success(BuildRecord(fields))
  {
    Csv.SplitWriteRow(fields);
  }

  /** The text columns are never null: `vendor_id`, `rate_code` and
      `payment_type` are the columns as read, even when empty. */
  lemma TextColumnsVerbatim(element: string, r: TaxiRecord)
    requires ParseElement(element) == Success(r)
    ensures var fields := Csv.Split(element).value;
      && r.vendorId == Some(fields[0])
      && r.rateCode == Some(fields[5])
      && r.paymentType == Some(fields[7])
  {
    TextFieldsAt(r);
    VerbatimOfParse(element, r, 0);
    VerbatimOfParse(element, r, 5);
    VerbatimOfParse(element, r, 7);
  }

  /** A text column other than the timestamps is kept as read. */
  lemma VerbatimOfParse(element: string, r: TaxiRecord, i: nat)
    requires ParseElement(element) == Success(r)
    requires i < FieldCount && Schema(i).kind == Str && i != 1 && i != 2
    ensures Values(r)[i] == StrCell(Some(Csv.Split(element).value[i]))
  {
    TextCellOfParse(element, r, i);
  }

  /** The two timestamps are never null; each is its column with the trailing
      run of characters from " UTC" removed, and nothing else removed. */
  lemma TimestampsTrimmed(element: string, r: TaxiRecord)
    requires ParseElement(element) == Success(r)
    ensures r.pickupDatetime.Some? && r.dropoffDatetime.Some?
    ensures TrimmedTimestamp(Csv.Split(element).value[1], r.pickupDatetime.value)
    ensures TrimmedTimestamp(Csv.Split(element).value[2], r.dropoffDatetime.value)
  {
    TextFieldsAt(r);
    TimestampOfParse(element, r, 1);
    TimestampOfParse(element, r, 2);
  }

  /** One timestamp of a parsed line is its column, trimmed. */
  lemma TimestampOfParse(element: string, r: TaxiRecord, i: nat)
    requires ParseElement(element) == Success(r) && (i == 1 || i == 2)
    ensures Values(r)[i].StrCell? && Values(r)[i].s.Some?
    ensures TrimmedTimestamp(Csv.Split(element).value[i], Values(r)[i].s.value)
  {
    TextCellOfParse(element, r, i);
    TrimmedOfRStrip(Csv.Split(element).value[i]);
  }

  /** `rstrip(' UTC')` trims a column in the sense of `TrimmedTimestamp`. */
  lemma TrimmedOfRStrip(column: string)
    ensures TrimmedTimestamp(column, Text.RStrip(column, UtcChars))
  {
    Text.RStripIdempotent(column, UtcChars);
  }

  /** `t` is `column` with its trailing characters from `UtcChars` cut off:
      a prefix of the column, the cut characters all from the set, the last
      kept character not, and trimming again changes nothing. */
  predicate TrimmedTimestamp(column: string, t: string)
  {
    && t <= column
    && (t == [] || t[|t| - 1] !in UtcChars)
    && (forall i :: |t| <= i < |column| ==> column[i] in UtcChars)
    && Text.RStrip(t, UtcChars) == t
  }

  /** The usual case: a timestamp that does not already end in one of those
      characters comes back without its " UTC" suffix. */
  lemma UtcSuffixRemoved(stamp: string, suffix: string)
    requires suffix == " UTC"
    requires stamp == [] || stamp[|stamp| - 1] !in UtcChars
    ensures Text.RStrip(stamp + suffix, UtcChars) == stamp
  {
    assert Text.AllIn(suffix, UtcChars);
    Text.RStripAppend(stamp, suffix, UtcChars);
    Text.RStripUnique(stamp, UtcChars, stamp);
  }

  /** The strip works on a set of characters, not on a suffix: a " UTC"
      suffix also takes with it any of ' ', 'U', 'T', 'C' that end the stamp
      before it, and a stamp without the suffix loses such characters too. */
  lemma UtcStripIsCharacterSet(stamp: string, suffix: string)
    requires suffix == " UTC"
    ensures Text.RStrip(stamp + suffix, UtcChars) == Text.RStrip(stamp, UtcChars)
  {
    assert Text.AllIn(suffix, UtcChars);
    Text.RStripAppend(stamp, suffix, UtcChars);
  }

  /** Only a numeric column can be null: `str` never fails. */
  lemma OnlyNumbersAreNull(i: nat, column: string)
    requires i < FieldCount && IsNull(Coerce(i, column))
    ensures Schema(i).kind != Str
  {
  }

  /** A column that fails its coercion affects only its own field: changing
      column j changes field j and no other. */
  lemma ColumnsAreIndependent(fields: seq<string>, j: nat, column: string)
    requires |fields| == FieldCount && j < FieldCount
    ensures Cells(fields[j := column]) == Cells(fields)[j := Coerce(j, column)]
  {
  }

  /** Sample timestamps: `2015-01-01 00:00:00 UTC` is kept as
      `2015-01-01 00:00:00`. */
  lemma SampleTimestamp(fields: seq<string>, stamp: string, suffix: string)
    requires |fields| == FieldCount
    requires stamp == "2015-01-01 00:00:00" && suffix == " UTC" && fields[1] == stamp + suffix
    ensures Cells(fields)[1] == StrCell(Some(stamp))
  {
    CellAt(fields, 1);
    CoerceText(1, fields[1]);
    UtcSuffixRemoved(stamp, suffix);
  }

  /** An integer column holding `str(n)` is `n`. */
  lemma IntColumnOfString(fields: seq<string>, i: nat, n: int)
    requires |fields| == FieldCount && i < FieldCount && Schema(i).kind == Int
    requires fields[i] == Numerals.IntToString(n)
    requires |Numerals.NatToDigits(if n < 0 then -n else n)| <= Numerals.MaxStrDigits
    ensures Cells(fields)[i] == IntCell(Some(n))
  {
    IntCellAt(fields, i);
    Numerals.ParseIntOfString(n);
  }

  /** A float column holding `whole.fraction` is its digits without the
      point, scaled by 10^-|fraction|. */
  lemma FloatColumnOfPointNumeral(fields: seq<string>, i: nat, whole: string, fraction: string)
    requires |fields| == FieldCount && i < FieldCount && Schema(i).kind == Float
    requires Numerals.AllDigits(whole) && Numerals.AllDigits(fraction) && |whole| + |fraction| > 0
    requires fields[i] == whole + "." + fraction
    ensures Cells(fields)[i] == FloatCell(Some(Numerals.Finite(Numerals.DigitsValue(whole + fraction), -|fraction|)))
  {
    FloatCellAt(fields, i);
    assert "" + whole == whole;
    Numerals.ParseFloatOfPointNumeral(false, whole, fraction);
  }

  /** Sample passenger count: one passenger. */
  lemma SamplePassengerCount(fields: seq<string>)
    requires |fields| == FieldCount && fields[3] == "1"
    ensures Cells(fields)[3] == IntCell(Some(1))
  {
    IntColumnOfString(fields, 3, 1);
  }

  /** Sample trip distance: 2. */
  lemma SampleDistance(fields: seq<string>)
    requires |fields| == FieldCount && fields[4] == "2"
    ensures Cells(fields)[4] == IntCell(Some(2))
  {
    IntColumnOfString(fields, 4, 2);
  }

  /** Sample data file month: 1. */
  lemma SampleMonth(fields: seq<string>)
    requires |fields| == FieldCount && fields[18] == "1"
    ensures Cells(fields)[18] == IntCell(Some(1))
  {
    IntColumnOfString(fields, 18, 1);
  }

  /** Sample data file year: 2015. */
  lemma SampleYear(fields: seq<string>)
    requires |fields| == FieldCount && fields[17] == "2015"
    ensures Cells(fields)[17] == IntCell(Some(2015))
  {
    IntColumnOfString(fields, 17, 2015);
  }

  /** Sample fare: `10.5` is 105 * 10^-1. */
  lemma SampleFare(fields: seq<string>, whole: string, fraction: string)
    requires |fields| == FieldCount
    requires whole == "10" && fraction == "5" && fields[8] == whole + "." + fraction
    ensures Cells(fields)[8] == FloatCell(Some(Numerals.Finite(105, -1)))
  {
    FloatColumnOfPointNumeral(fields, 8, whole, fraction);
    assert whole + fraction == "105";
    Numerals.OneHundredFive();
  }

  /** An empty `passenger_count` is null, whatever the other columns hold. */
  lemma SampleEmptyPassengerCount(fields: seq<string>)
    requires |fields| == FieldCount && fields[3] == []
    ensures Cells(fields)[3] == IntCell(None)
  {
    IntCellAt(fields, 3);
    Numerals.ParseIntRejectsBlank(fields[3]);
  }

  /** A `trip_distance` of `2.5` is null: the column is declared `int`. */
  lemma SampleDecimalDistance(fields: seq<string>, decimal: string)
    requires |fields| == FieldCount && decimal == "2.5" && fields[4] == decimal
    ensures Cells(fields)[4] == IntCell(None)
  {
    IntCellAt(fields, 4);
    Numerals.IntRejectsDecimalSample(decimal);
  }

  /** A `fare_amount` of `abc` is null: `float("abc")` raises `ValueError`. */
  lemma SampleWordFare(fields: seq<string>, word: string)
    requires |fields| == FieldCount && word == "abc" && fields[8] == word
    ensures Cells(fields)[8] == FloatCell(None)
  {
    FloatCellAt(fields, 8);
    Numerals.FloatRejectsWordSample(word);
  }

  /** The columns of the sample row
      `VTS,2015-01-01 00:00:00 UTC,2015-01-01 00:10:00 UTC,1,2,CRD,0,CSH,10.5,0.5,0.5,1.0,0.0,0.3,12.8,100,200,2015,1`. */
  predicate SampleRow(fields: seq<string>)
  {
    && |fields| == FieldCount
    && fields[0] == "VTS" && fields[1] == "2015-01-01 00:00:00 UTC" && fields[2] == "2015-01-01 00:10:00 UTC"
    && fields[3] == "1" && fields[4] == "2" && fields[5] == "CRD" && fields[6] == "0" && fields[7] == "CSH"
    && fields[8] == "10.5" && fields[9] == "0.5" && fields[10] == "0.5" && fields[11] == "1.0"
    && fields[12] == "0.0" && fields[13] == "0.3" && fields[14] == "12.8"
    && fields[15] == "100" && fields[16] == "200" && fields[17] == "2015" && fields[18] == "1"
  }

  /** The sample row, written as one line, parses to a record with no null
      field, holding vendor `VTS`, one passenger, a distance of 2, year 2015
      and month 1 (the fare and the timestamps are in `SampleFare` and
      `SampleTimestamp`). */
  lemma SampleLine(fields: seq<string>)
    requires SampleRow(fields)
    ensures ParseElement(Csv.JoinFields(fields)) == Success(BuildRecord(fields))
    ensures forall i :: 0 <= i < FieldCount ==> !IsNull(Values(BuildRecord(fields))[i])
    ensures var v := Values(BuildRecord(fields));
      && v[0] == StrCell(Some("VTS")) && v[3] == IntCell(Some(1)) && v[4] == IntCell(Some(2))
      && v[17] == IntCell(Some(2015)) && v[18] == IntCell(Some(1))
  {
    assert Csv.FitsLimit(fields);
    ParseWrittenRow(fields);
    ValuesOfRecordOf(Cells(fields));
    CellAt(fields, 0);
    SamplePassengerCount(fields);
    SampleDistance(fields);
    SampleYear(fields);
    SampleMonth(fields);
    SampleIntsPlain(fields);
    SampleFloatsPlain(fields);
    PlainNumeralsNotNull(fields);
  }

  /** The sample's integer columns are digit strings. */
  lemma SampleIntsPlain(fields: seq<string>)
    requires SampleRow(fields)
    ensures forall i :: 0 <= i < FieldCount && Schema(i).kind != Float ==> PlainNumeral(fields[i], Schema(i).kind)
  {
  }

  /** The sample's decimal columns are digits around a point. */
  lemma SampleFloatsPlain(fields: seq<string>)
    requires SampleRow(fields)
    ensures forall i :: 0 <= i < FieldCount && Schema(i).kind == Float ==> PlainNumeral(fields[i], Float)
  {
    PointNumeralPlain(fields[8], 2);
    PointNumeralPlain(fields[9], 1);
    PointNumeralPlain(fields[10], 1);
    PointNumeralPlain(fields[11], 1);
    PointNumeralPlain(fields[12], 1);
    PointNumeralPlain(fields[13], 1);
    PointNumeralPlain(fields[14], 2);
  }

  /** Digits around a point at k make a plain decimal numeral. */
  lemma PointNumeralPlain(column: string, k: nat)
    requires k < |column| && column[k] == '.' && |column| > 1
    requires Numerals.AllDigits(column[..k]) && Numerals.AllDigits(column[k + 1..])
    ensures PlainNumeral(column, Float)
  {
  }

  /** A column `int` or `float` reads without fail: a digit string in an
      integer column, digits around one point in a decimal column. */
  predicate PlainNumeral(column: string, kind: Kind)
  {
    match kind
    case Str => true
    case Int => column != [] && Numerals.AllDigits(column) && |column| <= Numerals.MaxStrDigits
    case Float =>
      var k := Text.FirstIndex(column, {'.'});
      && |column| > 1 && k < |column|
      && Numerals.AllDigits(column[..k]) && Numerals.AllDigits(column[k + 1..])
  }

  /** A line whose numeric columns are all plain numerals has no null field. */
  lemma PlainNumeralsNotNull(fields: seq<string>)
    requires |fields| == FieldCount
    requires forall i :: 0 <= i < FieldCount ==> PlainNumeral(fields[i], Schema(i).kind)
    ensures forall i :: 0 <= i < FieldCount ==> !IsNull(Cells(fields)[i])
  {
    forall i | 0 <= i < FieldCount
      ensures !IsNull(Cells(fields)[i])
    {
      CellAt(fields, i);
      PlainNumeralNotNull(i, fields[i]);
    }
  }

  lemma PlainNumeralNotNull(i: nat, column: string)
    requires i < FieldCount && PlainNumeral(column, Schema(i).kind)
    ensures !IsNull(Coerce(i, column))
  {
    match Schema(i).kind
    case Str =>
    case Int =>
      assert "" + column == column;
      Numerals.ParseIntOfDigits("", column);
    case Float =>
      Numerals.ParseFloatOfPointAt(column, Text.FirstIndex(column, {'.'}));
  }
}

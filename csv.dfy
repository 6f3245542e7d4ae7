/** The row splitter behind `csv.reader([element])` and `next(reader)` with
    the default dialect: comma delimiter, double-quote quote character, quotes
    doubled inside a quoted field, no escape character, no initial-space
    skipping, non-strict mode. It is the character state machine of the
    interpreter's `_csv` module fed one line, then the end-of-line mark, then
    the end of input. */
module Csv {
  import opened Wrappers
  import Text

  const Delimiter: char := ','
  const QuoteChar: char := '"'

  /** `csv.field_size_limit()` at its default: a field may not grow past this
      many characters. */
  const FieldSizeLimit: nat := 131072

  datatype State =
    | StartRecord
    | StartField
    | InField
    | InQuotedField
    | QuoteInQuotedField
    | EatCrnl

  /** The reader's state, the field being built and the fields already saved. */
  datatype Reader = Reader(state: State, field: string, row: seq<string>)

  /** The two ways `csv.Error` is raised for one line in this dialect. */
  datatype CsvError =
    | FieldLargerThanLimit
    | NewlineInUnquotedField

  predicate IsLineBreak(c: char)
  {
    c == '\n' || c == '\r'
  }

  const Initial: Reader := Reader(StartRecord, "", [])

  /** Appends one character to the current field and moves to `next`. */
  function AddChar(r: Reader, c: char, next: State): Result<Reader, CsvError>
  {
    if |r.field| >= FieldSizeLimit then Failure(FieldLargerThanLimit)
    else Success(Reader(next, r.field + [c], r.row))
  }

  /** Saves the current field into the row and moves to `next`. */
  function SaveField(r: Reader, next: State): Reader
  {
    Reader(next, "", r.row + [r.field])
  }

  /** The start-of-field case, shared by `StartRecord` for a character that is
      not a line break. */
  function FeedStartField(r: Reader, c: char): Result<Reader, CsvError>
  {
    if IsLineBreak(c) then Success(SaveField(r, EatCrnl))
    else if c == QuoteChar then Success(r.(state := InQuotedField))
    else if c == Delimiter then Success(SaveField(r, StartField))
    else AddChar(r, c, InField)
  }

  /** One character of the line. */
  function Feed(r: Reader, c: char): Result<Reader, CsvError>
  {
    match r.state
    case StartRecord =>
      if IsLineBreak(c) then Success(r.(state := EatCrnl)) else FeedStartField(r, c)
    case StartField =>
      FeedStartField(r, c)
    case InField =>
      if IsLineBreak(c) then Success(SaveField(r, EatCrnl))
      else if c == Delimiter then Success(SaveField(r, StartField))
      else AddChar(r, c, InField)
    case InQuotedField =>
      if c == QuoteChar then Success(r.(state := QuoteInQuotedField))
      else AddChar(r, c, InQuotedField)
    case QuoteInQuotedField =>
      if c == QuoteChar then AddChar(r, c, InQuotedField)
      else if c == Delimiter then Success(SaveField(r, StartField))
      else if IsLineBreak(c) then Success(SaveField(r, EatCrnl))
      else AddChar(r, c, InField)
    case EatCrnl =>
      if IsLineBreak(c) then Success(r) else Failure(NewlineInUnquotedField)
  }

  /** The characters of `s`, in order, stopping at the first error. */
  function FeedAll(r: Reader, s: string): Result<Reader, CsvError>
    decreases |s|
  {
    if s == [] then Success(r)
    else
      match Feed(r, s[0])
      case Failure(e) => Failure(e)
      case Success(next) => FeedAll(next, s[1..])
  }

  /** The end-of-line mark. A quoted field stays open across it. */
  function EndOfLine(r: Reader): Reader
  {
    match r.state
    case StartRecord => r
    case StartField => SaveField(r, StartRecord)
    case InField => SaveField(r, StartRecord)
    case InQuotedField => r
    case QuoteInQuotedField => SaveField(r, StartRecord)
    case EatCrnl => r.(state := StartRecord)
  }

  /** `next(csv.reader([line]))`: the fields of one line. A quoted field still
      open when the input runs out is saved as it stands (non-strict mode);
      an empty line gives no fields at all. */
  function Split(line: string): Result<seq<string>, CsvError>
  {
    match FeedAll(Initial, line)
    case Failure(e) => Failure(e)
    case Success(r) =>
      var done := EndOfLine(r);
      if done.state == InQuotedField then Success(done.row + [done.field]) else Success(done.row)
  }

  // ---------------------------------------------------------------------------
  // The writing side, as the reference the reader is checked against: how
  // `csv.writer` with the default dialect (minimal quoting) writes one row.

  /** A field is written bare unless it holds the delimiter, the quote
      character or a line break. */
  predicate NeedsQuoting(f: string)
  {
    exists i :: 0 <= i < |f| && (f[i] == Delimiter || f[i] == QuoteChar || IsLineBreak(f[i]))
  }

  /** Every quote character doubled: one extra character per quote. */
  function Escape(f: string): (e: string)
    ensures |e| == |f| + Occurrences(f, QuoteChar)
  {
    if f == [] then []
    else (if f[0] == QuoteChar then [QuoteChar, QuoteChar] else [f[0]]) + Escape(f[1..])
  }

  function Quote(f: string): string
  {
    [QuoteChar] + Escape(f) + [QuoteChar]
  }

  function WriteField(f: string): string
  {
    if NeedsQuoting(f) then Quote(f) else f
  }

  /** The written fields, joined by the delimiter. */
  function JoinFields(fields: seq<string>): string
    requires |fields| > 0
  {
    if |fields| == 1 then WriteField(fields[0])
    else WriteField(fields[0]) + [Delimiter] + JoinFields(fields[1..])
  }

  /** `csv.writer(...).writerow(fields)` without the line terminator; a row of
      one empty field is written as `""` so that it does not read back as an
      empty line. */
  function WriteRow(fields: seq<string>): string
    requires |fields| > 0
  {
    if fields == [""] then Quote("") else JoinFields(fields)
  }

  predicate FitsLimit(fields: seq<string>)
  {
    forall i :: 0 <= i < |fields| ==> |fields[i]| <= FieldSizeLimit
  }

  /** The number of times `c` occurs in `s`. */
  function Occurrences(s: string, c: char): nat
  {
    if s == [] then 0 else (if s[0] == c then 1 else 0) + Occurrences(s[1..], c)
  }

  /** The pieces of `s` between delimiters, cut without regard to quoting:
      what the reader yields for a line that holds no quote character. */
  function CommaFields(s: string): (fields: seq<string>)
    ensures |fields| > 0
    decreases |s|
  {
    var k := Text.FirstIndex(s, {Delimiter});
    if k == |s| then [s] else [s[..k]] + CommaFields(s[k + 1..])
  }

  /** A line the reader cuts at every delimiter: no quote character, no line
      break, and the whole line within the field size limit, so that no piece
      between delimiters can exceed it. */
  predicate PlainLine(line: string)
  {
    && (forall i :: 0 <= i < |line| ==> line[i] != QuoteChar && !IsLineBreak(line[i]))
    && |line| <= FieldSizeLimit
  }

  // ---------------------------------------------------------------------------
  // Properties

  /** The fold over a concatenation is the fold over its parts. */
  lemma {:induction false} FeedAllAppend(r: Reader, a: string, b: string)
    ensures FeedAll(r, a + b)
         == match FeedAll(r, a) case Failure(e) => Failure(e) case Success(r') => FeedAll(r', b)
    decreases |a|
  {
    if a == [] {
      assert a + b == b;
    } else {
      assert (a + b)[0] == a[0];
      assert (a + b)[1..] == a[1..] + b;
      match Feed(r, a[0])
      case Failure(e) =>
      case Success(next) => FeedAllAppend(next, a[1..], b);
    }
  }

  /** Inside a quoted field an escaped text reads back as the text itself. */
  lemma {:induction false} FeedEscaped(r: Reader, f: string)
    requires r.state == InQuotedField && |r.field| + |f| <= FieldSizeLimit
    ensures FeedAll(r, Escape(f)) == Success(Reader(InQuotedField, r.field + f, r.row))
    decreases |f|
  {
    if f == [] {
      assert r.field + f == r.field;
    } else {
      var head := if f[0] == QuoteChar then [QuoteChar, QuoteChar] else [f[0]];
      var next := Reader(InQuotedField, r.field + [f[0]], r.row);
      FeedAllAppend(r, head, Escape(f[1..]));
      if f[0] == QuoteChar {
        var mid := r.(state := QuoteInQuotedField);
        assert Feed(mid, QuoteChar) == Success(next);
        assert FeedAll(next, []) == Success(next);
        assert FeedAll(mid, [QuoteChar]) == Success(next);
        assert head[1..] == [QuoteChar];
        assert Feed(r, QuoteChar) == Success(mid);
      } else {
        assert FeedAll(r, head) == Success(next);
      }
      FeedEscaped(next, f[1..]);
      assert r.field + [f[0]] + f[1..] == r.field + f;
    }
  }

  /** A quoted field, read from the start of a field, leaves the reader just
      after its closing quote with the field's text. */
  lemma FeedQuoted(row: seq<string>, f: string)
    requires |f| <= FieldSizeLimit
    ensures FeedAll(Reader(StartField, "", row), Quote(f)) == Success(Reader(QuoteInQuotedField, f, row))
  {
    var open := Reader(InQuotedField, "", row);
    FeedAllAppend(Reader(StartField, "", row), [QuoteChar], Escape(f) + [QuoteChar]);
    assert [QuoteChar] + Escape(f) + [QuoteChar] == [QuoteChar] + (Escape(f) + [QuoteChar]);
    assert FeedAll(Reader(StartField, "", row), [QuoteChar]) == Success(open);
    FeedAllAppend(open, Escape(f), [QuoteChar]);
    FeedEscaped(open, f);
    assert "" + f == f;
  }

  /** A field written bare holds no delimiter, quote or line break. */
  predicate Bare(f: string)
  {
    forall i :: 0 <= i < |f| ==> f[i] != Delimiter && f[i] != QuoteChar && !IsLineBreak(f[i])
  }

  /** Inside an unquoted field, bare text is appended as it is. */
  lemma {:induction false} FeedBare(r: Reader, f: string)
    requires r.state == InField && Bare(f) && |r.field| + |f| <= FieldSizeLimit
    ensures FeedAll(r, f) == Success(Reader(InField, r.field + f, r.row))
    decreases |f|
  {
    if f == [] {
      assert r.field + f == r.field;
    } else {
      var next := Reader(InField, r.field + [f[0]], r.row);
      assert Feed(r, f[0]) == Success(next);
      FeedBare(next, f[1..]);
      assert r.field + [f[0]] + f[1..] == r.field + f;
    }
  }

  /** Where the reader stands after one written field, read from the start of
      a field: the field's text is complete and one more delimiter or the end
      of the line saves it. */
  predicate AfterField(r: Reader, row: seq<string>, f: string)
  {
    && r.row == row
    && r.field == f
    && (r.state == StartField || r.state == InField || r.state == QuoteInQuotedField)
    && (r.state == StartField ==> f == [])
  }

  /** One written field, read from the start of a field. */
  lemma FeedWrittenField(row: seq<string>, f: string)
    requires |f| <= FieldSizeLimit
    ensures FeedAll(Reader(StartField, "", row), WriteField(f)).Success?
    ensures AfterField(FeedAll(Reader(StartField, "", row), WriteField(f)).value, row, f)
  {
    var start := Reader(StartField, "", row);
    if NeedsQuoting(f) {
      FeedQuoted(row, f);
    } else if f == [] {
    } else {
      assert Bare(f);
      assert f[0] != Delimiter && f[0] != QuoteChar && !IsLineBreak(f[0]);
      var first := Reader(InField, [f[0]], row);
      assert start.field + [f[0]] == [f[0]];
      assert Feed(start, f[0]) == Success(first);
      FeedBare(first, f[1..]);
      assert [f[0]] + f[1..] == f;
    }
  }

  /** After a field, the delimiter saves it and starts the next one. */
  lemma DelimiterSaves(r: Reader, row: seq<string>, f: string)
    requires AfterField(r, row, f)
    ensures Feed(r, Delimiter) == Success(Reader(StartField, "", row + [f]))
  {
  }

  /** After a field, the end of the line saves it and ends the record. */
  lemma EndOfLineSaves(r: Reader, row: seq<string>, f: string)
    requires AfterField(r, row, f)
    ensures EndOfLine(r) == Reader(StartRecord, "", row + [f])
  {
  }

  /** The joined fields, read from the start of a field, leave every field but
      the last saved and the last one complete. */
  lemma {:induction false} FeedJoined(row: seq<string>, fields: seq<string>)
    requires |fields| > 0 && FitsLimit(fields)
    ensures FeedAll(Reader(StartField, "", row), JoinFields(fields)).Success?
    ensures AfterField(FeedAll(Reader(StartField, "", row), JoinFields(fields)).value,
                       row + fields[..|fields| - 1], fields[|fields| - 1])
    decreases |fields|
  {
    var start := Reader(StartField, "", row);
    FeedWrittenField(row, fields[0]);
    if |fields| > 1 {
      var afterFirst := FeedAll(start, WriteField(fields[0])).value;
      var next := Reader(StartField, "", row + [fields[0]]);
      FeedAllAppend(start, WriteField(fields[0]) + [Delimiter], JoinFields(fields[1..]));
      FeedAllAppend(start, WriteField(fields[0]), [Delimiter]);
      DelimiterSaves(afterFirst, row, fields[0]);
      assert FeedAll(afterFirst, [Delimiter]) == Success(next);
      FeedJoined(row + [fields[0]], fields[1..]);
      assert row + [fields[0]] + fields[1..][..|fields[1..]| - 1] == row + fields[..|fields| - 1];
    } else {
      assert fields[..0] == [] && row + [] == row;
    }
  }

  /** From the start of a record, a line that does not begin with a line
      break reads as from the start of a field. */
  lemma StartRecordActsAsStartField(line: string)
    requires line != [] && !IsLineBreak(line[0])
    ensures FeedAll(Initial, line) == FeedAll(Reader(StartField, "", []), line)
  {
    assert Feed(Initial, line[0]) == Feed(Reader(StartField, "", []), line[0]);
  }

  /** Splitting what the writer wrote gives back the fields: every field,
      whatever characters it holds, survives the round trip. */
  lemma SplitWriteRow(fields: seq<string>)
    requires |fields| > 0 && FitsLimit(fields)
    ensures Split(WriteRow(fields)) == Success(fields)
  {
    var line := WriteRow(fields);
    if fields == [""] {
      FeedQuoted([], "");
      assert line == Quote("") && line[0] == QuoteChar;
      StartRecordActsAsStartField(line);
      assert EndOfLine(Reader(QuoteInQuotedField, "", [])) == Reader(StartRecord, "", [""]);
    } else {
      FeedJoined([], fields);
      var r := FeedAll(Reader(StartField, "", []), line).value;
      EndOfLineSaves(r, fields[..|fields| - 1], fields[|fields| - 1]);
      assert fields[..|fields| - 1] + [fields[|fields| - 1]] == fields;
      FirstWrittenChar(fields);
      StartRecordActsAsStartField(line);
    }
  }

  /** A written row other than a single empty field is not empty, and it never
      begins with a line break. */
  lemma FirstWrittenChar(fields: seq<string>)
    requires |fields| > 0 && fields != [""]
    ensures JoinFields(fields) != [] && !IsLineBreak(JoinFields(fields)[0])
  {
    var w := WriteField(fields[0]);
    if NeedsQuoting(fields[0]) {
      assert w[0] == QuoteChar;
    } else if fields[0] != [] {
      assert w[0] == fields[0][0];
    }
    if |fields| > 1 {
      assert JoinFields(fields) == w + [Delimiter] + JoinFields(fields[1..]);
      assert JoinFields(fields)[|w|] == Delimiter;
      if w != [] { assert JoinFields(fields)[0] == w[0]; }
    } else {
      assert fields[0] != [];
    }
  }

  /** Occurrences add up over a concatenation. */
  lemma {:induction false} OccurrencesAppend(a: string, b: string, c: char)
    ensures Occurrences(a + b, c) == Occurrences(a, c) + Occurrences(b, c)
    decreases |a|
  {
    if a == [] {
      assert a + b == b;
    } else {
      assert (a + b)[0] == a[0];
      assert (a + b)[1..] == a[1..] + b;
      OccurrencesAppend(a[1..], b, c);
    }
  }

  /** A string without `c` has no occurrence of it. */
  lemma {:induction false} OccurrencesNone(s: string, c: char)
    requires forall i :: 0 <= i < |s| ==> s[i] != c
    ensures Occurrences(s, c) == 0
    decreases |s|
  {
    if s != [] {
      OccurrencesNone(s[1..], c);
    }
  }

  /** One piece per delimiter, plus one. */
  lemma {:induction false} CommaFieldsCount(s: string)
    ensures |CommaFields(s)| == Occurrences(s, Delimiter) + 1
    decreases |s|
  {
    var k := Text.FirstIndex(s, {Delimiter});
    OccurrencesNone(s[..k], Delimiter);
    if k == |s| {
      assert s[..k] == s;
    } else {
      assert s == s[..k] + ([Delimiter] + s[k + 1..]);
      OccurrencesAppend(s[..k], [Delimiter] + s[k + 1..], Delimiter);
      OccurrencesAppend([Delimiter], s[k + 1..], Delimiter);
      CommaFieldsCount(s[k + 1..]);
    }
  }

  /** The piece of a quote-free line up to its first delimiter is bare. */
  lemma FirstPieceBare(s: string)
    requires forall i :: 0 <= i < |s| ==> s[i] != QuoteChar && !IsLineBreak(s[i])
    ensures Bare(s[..Text.FirstIndex(s, {Delimiter})])
  {
    var k := Text.FirstIndex(s, {Delimiter});
    var head := s[..k];
    forall i | 0 <= i < |head| ensures head[i] != Delimiter && head[i] != QuoteChar && !IsLineBreak(head[i]) {
      assert head[i] == s[i];
    }
  }

  /** The pieces of a quote-free line are bare and no longer than the line. */
  lemma {:induction false} CommaFieldsBare(s: string)
    requires forall i :: 0 <= i < |s| ==> s[i] != QuoteChar && !IsLineBreak(s[i])
    ensures forall j :: 0 <= j < |CommaFields(s)| ==> Bare(CommaFields(s)[j]) && |CommaFields(s)[j]| <= |s|
    decreases |s|
  {
    var k := Text.FirstIndex(s, {Delimiter});
    FirstPieceBare(s);
    if k < |s| {
      var tail := s[k + 1..];
      QuoteFreeSuffix(s, k + 1);
      CommaFieldsBare(tail);
      assert CommaFields(s) == [s[..k]] + CommaFields(tail);
    }
  }

  lemma QuoteFreeSuffix(s: string, n: nat)
    requires n <= |s|
    requires forall i :: 0 <= i < |s| ==> s[i] != QuoteChar && !IsLineBreak(s[i])
    ensures forall i :: 0 <= i < |s[n..]| ==> s[n..][i] != QuoteChar && !IsLineBreak(s[n..][i])
  {
    forall i | 0 <= i < |s[n..]|
      ensures s[n..][i] != QuoteChar && !IsLineBreak(s[n..][i])
    {
      assert s[n..][i] == s[n + i];
    }
  }

  /** A bare field is written as it is. */
  lemma BareWritesItself(f: string)
    requires Bare(f)
    ensures WriteField(f) == f
  {
  }

  lemma JoinFieldsCons(head: string, rest: seq<string>)
    requires |rest| > 0
    ensures JoinFields([head] + rest) == WriteField(head) + [Delimiter] + JoinFields(rest)
  {
    assert ([head] + rest)[1..] == rest;
  }

  /** Writing the pieces of a quote-free line back out gives the line. */
  lemma {:induction false} CommaFieldsRejoin(s: string)
    requires forall i :: 0 <= i < |s| ==> s[i] != QuoteChar && !IsLineBreak(s[i])
    ensures JoinFields(CommaFields(s)) == s
    decreases |s|
  {
    var k := Text.FirstIndex(s, {Delimiter});
    var head := s[..k];
    FirstPieceBare(s);
    BareWritesItself(head);
    if k == |s| {
      assert head == s;
    } else {
      var tail := s[k + 1..];
      QuoteFreeSuffix(s, k + 1);
      CommaFieldsRejoin(tail);
      assert CommaFields(s) == [head] + CommaFields(tail);
      JoinFieldsCons(head, CommaFields(tail));
      assert s == head + [Delimiter] + tail;
    }
  }

  /** A quote-free line reads as its pieces between delimiters: as many
      fields as delimiters plus one. */
  lemma SplitPlainLine(line: string)
    requires line != [] && PlainLine(line)
    ensures Split(line) == Success(CommaFields(line))
    ensures |CommaFields(line)| == Occurrences(line, Delimiter) + 1
  {
    var fields := CommaFields(line);
    CommaFieldsBare(line);
    CommaFieldsRejoin(line);
    CommaFieldsCount(line);
    assert FitsLimit(fields);
    SplitWriteRow(fields);
  }

  /** Without a quote character, a line break in the middle of a line raises
      `csv.Error` ("new-line character seen in unquoted field"). */
  lemma LineBreakInUnquotedField(a: string, c: char, b: string)
    requires PlainLine(a) && IsLineBreak(c) && b != [] && !IsLineBreak(b[0])
    ensures Split(a + [c] + b) == Failure(NewlineInUnquotedField)
  {
    var eat := FeedAll(Initial, a + [c]);
    FeedAllAppend(Initial, a + [c], b);
    FeedAllAppend(Initial, a, [c]);
    if a == [] {
      assert a + [c] == [c];
      assert eat == Success(Initial.(state := EatCrnl));
    } else {
      var fields := CommaFields(a);
      CommaFieldsBare(a);
      CommaFieldsRejoin(a);
      FirstWrittenChar(fields);
      StartRecordActsAsStartField(a);
      FeedJoined([], fields);
      assert eat.Success? && eat.value.state == EatCrnl;
    }
    FeedAllAppend(eat.value, [b[0]], b[1..]);
    assert [b[0]] + b[1..] == b;
  }

  /** A quote character never closed before the end of the line: the rest of
      the line is the field's text (non-strict mode). */
  lemma UnterminatedQuote(f: string)
    requires forall i :: 0 <= i < |f| ==> f[i] != QuoteChar
    requires |f| <= FieldSizeLimit
    ensures Split([QuoteChar] + f) == Success([f])
  {
    var open := Reader(InQuotedField, "", []);
    EscapeWithoutQuotes(f);
    FeedEscaped(open, f);
    FeedAllAppend(Initial, [QuoteChar], f);
    assert FeedAll(Initial, [QuoteChar]) == Success(open);
    assert "" + f == f;
    assert FeedAll(Initial, [QuoteChar] + f) == Success(Reader(InQuotedField, f, []));
    assert [] + [f] == [f];
  }

  /** Text without quote characters is its own escape. */
  lemma {:induction false} EscapeWithoutQuotes(f: string)
    requires forall i :: 0 <= i < |f| ==> f[i] != QuoteChar
    ensures Escape(f) == f
    decreases |f|
  {
    if f != [] {
      EscapeWithoutQuotes(f[1..]);
      assert [f[0]] + f[1..] == f;
    }
  }

  /** An empty line has no fields at all. */
  lemma SplitEmptyLine()
    ensures Split([]) == Success([])
  {
  }
}

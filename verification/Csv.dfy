/**
 Comma-separated rows as the RECORD file uses them: a writer that quotes only where needed and
 ends rows with a line feed, and the reader's state machine.
 */
module Csv {
  import opened Options

  type Row = seq<string>

  // ----- writer

  predicate Special(c: char) {
    c == ',' || c == '"' || c == '\n'
  }

  predicate NeedsQuotes(f: string) {
    exists k :: 0 <= k < |f| && Special(f[k])
  }

  function Doubled(f: string): string {
    if f == [] then [] else (if f[0] == '"' then ['"', '"'] else [f[0]]) + Doubled(f[1..])
  }

  function WriteField(f: string): string {
    if NeedsQuotes(f) then ['"'] + Doubled(f) + ['"'] else f
  }

  function WriteRow(row: Row): string
    requires row != []
  {
    if |row| == 1 then WriteField(row[0]) + ['\n'] else WriteField(row[0]) + [','] + WriteRow(row[1..])
  }

  function WriteRows(rows: seq<Row>): string
    requires forall k :: 0 <= k < |rows| ==> rows[k] != []
  {
    if rows == [] then [] else WriteRow(rows[0]) + WriteRows(rows[1..])
  }

  lemma {:induction false} WriteOneMore(rows: seq<Row>, row: Row)
    requires row != [] && forall k :: 0 <= k < |rows| ==> rows[k] != []
    ensures WriteRows(rows + [row]) == WriteRows(rows) + WriteRow(row)
  {
    if rows == [] {
      assert rows + [row] == [row] && [row][1..] == [];
    } else {
      assert (rows + [row])[1..] == rows[1..] + [row];
      WriteOneMore(rows[1..], row);
    }
  }

  // ----- reader

  datatype Mode = StartRecord | StartField | InField | InQuoted | QuoteInQuoted | EatReturn

  function Prepend(row: Row, rest: Option<seq<Row>>): Option<seq<Row>> {
    if rest.None? then None else Some([row] + rest.value)
  }

  /** Reads the rest of the text; `field` and `row` are what is collected so far. */
  function Read(mode: Mode, field: string, row: Row, s: string): Option<seq<Row>>
    decreases |s|, 0
  {
    if s == [] then
      if mode.StartRecord? || mode.EatReturn? then Some([]) else Some([row + [field]])
    else
      var c, rest := s[0], s[1..];
      match mode
      case EatReturn =>
        if c == '\n' then Read(StartRecord, [], [], rest)
        else if c == '\r' then Read(EatReturn, [], [], rest)
        else None
      case StartRecord =>
        if c == '\n' then Prepend([], Read(StartRecord, [], [], rest))
        else if c == '\r' then Prepend([], Read(EatReturn, [], [], rest))
        else FieldStart(c, [], [], rest)
      case StartField => FieldStart(c, field, row, rest)
      case InField => Unquoted(c, field, row, rest)
      case InQuoted =>
        if c == '"' then Read(QuoteInQuoted, field, row, rest) else Read(InQuoted, field + [c], row, rest)
      case QuoteInQuoted =>
        if c == '"' then Read(InQuoted, field + [c], row, rest)
        else Unquoted(c, field, row, rest)
  }

  /** A character outside quotes: it ends the record, ends the field, or belongs to the field. */
  function Unquoted(c: char, field: string, row: Row, rest: string): Option<seq<Row>>
    decreases |rest|, 1
  {
    if c == '\n' then Prepend(row + [field], Read(StartRecord, [], [], rest))
    else if c == '\r' then Prepend(row + [field], Read(EatReturn, [], [], rest))
    else if c == ',' then Read(StartField, [], row + [field], rest)
    else Read(InField, field + [c], row, rest)
  }

  function FieldStart(c: char, field: string, row: Row, rest: string): Option<seq<Row>>
    decreases |rest|, 2
  {
    if c == '"' then Read(InQuoted, field, row, rest) else Unquoted(c, field, row, rest)
  }

  function ReadRows(s: string): Option<seq<Row>> {
    Read(StartRecord, [], [], s)
  }

  // ----- reading back what was written

  predicate NoReturn(f: string) {
    '\r' !in f
  }

  lemma {:induction false} PlainReadsBack(field: string, row: Row, f: string, rest: string)
    requires !NeedsQuotes(f) && NoReturn(f)
    ensures Read(InField, field, row, f + rest) == Read(InField, field + f, row, rest)
    decreases |f|
  {
    if f == [] {
      assert f + rest == rest && field + f == field;
    } else {
      assert (f + rest)[1..] == f[1..] + rest;
      assert !Special(f[0]) && f[0] in f;
      assert forall k :: 0 <= k < |f[1..]| ==> f[1..][k] == f[k + 1];
      PlainReadsBack(field + [f[0]], row, f[1..], rest);
      assert field + [f[0]] + f[1..] == field + f;
    }
  }

  lemma {:induction false} QuotedReadsBack(field: string, row: Row, f: string, rest: string)
    ensures Read(InQuoted, field, row, Doubled(f) + ['"'] + rest) == Read(QuoteInQuoted, field + f, row, rest)
    decreases |f|
  {
    var s := Doubled(f) + ['"'] + rest;
    if f == [] {
      assert s == ['"'] + rest && field + f == field && s[1..] == rest;
    } else {
      var more := Doubled(f[1..]) + ['"'] + rest;
      QuotedReadsBack(field + [f[0]], row, f[1..], rest);
      assert field + [f[0]] + f[1..] == field + f;
      if f[0] == '"' {
        assert s == ['"', '"'] + more && s[1..] == ['"'] + more && s[1..][1..] == more;
      } else {
        assert s == [f[0]] + more && s[1..] == more;
      }
    }
  }

  /** The characters that end a field. */
  predicate IsSeparator(c: char) {
    c == ',' || c == '\n' || c == '\r'
  }

  /** What follows a field that ended with `sep`. */
  function AfterField(row: Row, sep: char, rest: string): Option<seq<Row>> {
    if sep == ',' then Read(StartField, [], row, rest)
    else Prepend(row, Read(if sep == '\n' then StartRecord else EatReturn, [], [], rest))
  }

  lemma QuotedFieldReadsBack(row: Row, f: string, sep: char, rest: string)
    requires NeedsQuotes(f) && IsSeparator(sep)
    ensures Read(StartField, [], row, WriteField(f) + ([sep] + rest)) == AfterField(row + [f], sep, rest)
  {
    var tail := [sep] + rest;
    OpeningQuote(row, Doubled(f) + ['"'] + tail);
    assert WriteField(f) + tail == ['"'] + (Doubled(f) + ['"'] + tail);
    QuotedReadsBack([], row, f, tail);
    assert [] + f == f;
    AfterClosingQuote(f, row, sep, rest);
  }

  lemma OpeningQuote(row: Row, rest: string)
    ensures Read(StartField, [], row, ['"'] + rest) == Read(InQuoted, [], row, rest)
  {
    assert (['"'] + rest)[1..] == rest;
  }

  lemma AfterClosingQuote(f: string, row: Row, sep: char, rest: string)
    requires IsSeparator(sep)
    ensures Read(QuoteInQuoted, f, row, [sep] + rest) == AfterField(row + [f], sep, rest)
  {
    assert ([sep] + rest)[1..] == rest;
  }

  lemma PlainFieldReadsBack(row: Row, f: string, sep: char, rest: string)
    requires !NeedsQuotes(f) && NoReturn(f) && f != [] && IsSeparator(sep)
    ensures Read(StartField, [], row, f + ([sep] + rest)) == AfterField(row + [f], sep, rest)
  {
    var tail := [sep] + rest;
    var s := f + tail;
    assert s[0] == f[0] && s[1..] == f[1..] + tail;
    assert !Special(f[0]) && f[0] in f;
    assert Read(StartField, [], row, s) == FieldStart(f[0], [], row, f[1..] + tail);
    assert Unquoted(f[0], [], row, f[1..] + tail) == Read(InField, [] + [f[0]], row, f[1..] + tail);
    assert [] + [f[0]] == [f[0]];
    PlainReadsBack([f[0]], row, f[1..], tail) by {
      assert forall k :: 0 <= k < |f[1..]| ==> f[1..][k] == f[k + 1];
    }
    assert [f[0]] + f[1..] == f && tail[0] == sep && tail[1..] == rest;
  }

  /** A written field and its separator, read from the start of a field, add exactly that field. */
  lemma FieldReadsBack(row: Row, f: string, sep: char, rest: string)
    requires NoReturn(f) && IsSeparator(sep)
    ensures Read(StartField, [], row, WriteField(f) + [sep] + rest) == AfterField(row + [f], sep, rest)
  {
    assert WriteField(f) + [sep] + rest == WriteField(f) + ([sep] + rest);
    if NeedsQuotes(f) {
      QuotedFieldReadsBack(row, f, sep, rest);
    } else if f != [] {
      PlainFieldReadsBack(row, f, sep, rest);
    } else {
      var s := WriteField(f) + [sep] + rest;
      assert s[0] == sep && s[1..] == rest && row + [f] == row + [[]];
      assert Read(StartField, [], row, s) == Unquoted(sep, [], row, rest);
    }
  }

  predicate Clean(row: Row) {
    forall k :: 0 <= k < |row| ==> NoReturn(row[k])
  }

  lemma {:induction false} RowReadsBack(done: Row, row: Row, rest: string)
    requires row != [] && Clean(row)
    ensures Read(StartField, [], done, WriteRow(row) + rest) == Prepend(done + row, Read(StartRecord, [], [], rest))
    decreases |row|
  {
    var f := row[0];
    if |row| == 1 {
      assert WriteRow(row) + rest == WriteField(f) + ['\n'] + rest;
      FieldReadsBack(done, f, '\n', rest);
      assert done + [f] == done + row;
    } else {
      var more := WriteRow(row[1..]) + rest;
      assert WriteRow(row) + rest == WriteField(f) + [','] + more;
      FieldReadsBack(done, f, ',', more);
      RowReadsBack(done + [f], row[1..], rest);
      assert done + [f] + row[1..] == done + row;
    }
  }

  /** A row of several fields does not begin with a line end. */
  lemma RowStart(row: Row)
    requires |row| >= 2 && Clean(row)
    ensures WriteRow(row) != [] && WriteRow(row)[0] != '\n' && WriteRow(row)[0] != '\r'
  {
    var f := row[0];
    if f != [] && !NeedsQuotes(f) {
      assert !Special(f[0]) && f[0] in f;
    }
  }

  /** Rows of several fields without carriage returns are read back as they were written. */
  lemma {:induction false} RowsReadBack(rows: seq<Row>)
    requires forall k :: 0 <= k < |rows| ==> |rows[k]| >= 2 && Clean(rows[k])
    ensures ReadRows(WriteRows(rows)) == Some(rows)
    decreases |rows|
  {
    if rows != [] {
      var row, rest := rows[0], WriteRows(rows[1..]);
      RowStart(row);
      assert (WriteRow(row) + rest)[0] == WriteRow(row)[0];
      RowReadsBack([], row, rest);
      assert Read(StartRecord, [], [], WriteRow(row) + rest) == Read(StartField, [], [], WriteRow(row) + rest);
      assert [] + row == row && [row] + rows[1..] == rows;
      RowsReadBack(rows[1..]);
    }
  }

  // ----- the text of a row, and other line ends

  /** The fields of a row as they are written, with commas between them. */
  function FieldsText(row: Row): string
    requires row != []
  {
    if |row| == 1 then WriteField(row[0]) else WriteField(row[0]) + [','] + FieldsText(row[1..])
  }

  lemma {:induction false} RowIsFieldsText(row: Row)
    requires row != []
    ensures WriteRow(row) == FieldsText(row) + ['\n']
  {
    if |row| > 1 { RowIsFieldsText(row[1..]); }
  }

  lemma {:induction false} DoubledQuote(a: string, b: string)
    ensures Doubled(a + ['"'] + b) == Doubled(a) + ['"', '"'] + Doubled(b)
  {
    if a == [] {
      assert (a + ['"'] + b)[1..] == b;
    } else {
      assert (a + ['"'] + b)[1..] == a[1..] + ['"'] + b;
      DoubledQuote(a[1..], b);
    }
  }

  lemma {:induction false} NothingDoubled(f: string)
    requires '"' !in f
    ensures Doubled(f) == f
  {
    if f != [] {
      assert f == [f[0]] + f[1..];
      NothingDoubled(f[1..]);
    }
  }

  /** Fields without comma, quote and line feed are written as they are; any other field is put in quotes, and then each
      quote in it is doubled and everything else is as it was. */
  lemma FieldWritten(f: string, a: string, b: string)
    ensures ',' !in f && '"' !in f && '\n' !in f ==> WriteField(f) == f
    ensures '"' !in f && (',' in f || '\n' in f) ==> WriteField(f) == ['"'] + f + ['"']
    ensures f == a + ['"'] + b ==> WriteField(f) == ['"'] + (Doubled(a) + ['"', '"'] + Doubled(b)) + ['"']
  {
    if NeedsQuotes(f) { var k :| 0 <= k < |f| && Special(f[k]); assert f[k] in f; }
    if '"' !in f { NothingDoubled(f); }
    if f == a + ['"'] + b {
      DoubledQuote(a, b);
      assert Special(f[|a|]);
    }
  }

  lemma {:induction false} FieldsReadBack(done: Row, row: Row, end: char, rest: string)
    requires row != [] && Clean(row) && IsSeparator(end) && end != ','
    ensures Read(StartField, [], done, FieldsText(row) + ([end] + rest)) == AfterField(done + row, end, rest)
    decreases |row|
  {
    var f := row[0];
    if |row| == 1 {
      assert FieldsText(row) + ([end] + rest) == WriteField(f) + [end] + rest;
      FieldReadsBack(done, f, end, rest);
      assert done + [f] == done + row;
    } else {
      var more := FieldsText(row[1..]) + ([end] + rest);
      assert FieldsText(row) + ([end] + rest) == WriteField(f) + [','] + more;
      FieldReadsBack(done, f, ',', more);
      FieldsReadBack(done + [f], row[1..], end, rest);
      assert done + [f] + row[1..] == done + row;
    }
  }

  lemma LastFieldReadsBack(done: Row, f: string)
    requires NoReturn(f)
    ensures Read(StartField, [], done, WriteField(f)) == Some([done + [f]])
  {
    if NeedsQuotes(f) {
      OpeningQuote(done, Doubled(f) + ['"'] + []);
      QuotedReadsBack([], done, f, []);
      assert WriteField(f) == ['"'] + (Doubled(f) + ['"'] + []) && [] + f == f;
    } else if f != [] {
      assert !Special(f[0]) && f[0] in f;
      assert Read(StartField, [], done, f) == FieldStart(f[0], [], done, f[1..]);
      assert Unquoted(f[0], [], done, f[1..]) == Read(InField, [] + [f[0]], done, f[1..]);
      assert [] + [f[0]] == [f[0]];
      assert forall k :: 0 <= k < |f[1..]| ==> f[1..][k] == f[k + 1];
      PlainReadsBack([f[0]], done, f[1..], []);
      assert f[1..] + [] == f[1..] && [f[0]] + f[1..] == f;
    }
  }

  lemma {:induction false} LastFieldsReadBack(done: Row, row: Row)
    requires row != [] && Clean(row)
    ensures Read(StartField, [], done, FieldsText(row)) == Some([done + row])
    decreases |row|
  {
    var f := row[0];
    LastFieldReadsBack(done, f);
    if |row| == 1 {
      assert done + [f] == done + row;
    } else {
      FieldReadsBack(done, f, ',', FieldsText(row[1..]));
      LastFieldsReadBack(done + [f], row[1..]);
      assert done + [f] + row[1..] == done + row;
    }
  }

  lemma FieldsStart(row: Row, rest: string)
    requires |row| >= 2 && Clean(row)
    ensures Read(StartRecord, [], [], FieldsText(row) + rest) == Read(StartField, [], [], FieldsText(row) + rest)
  {
    RowStart(row);
    RowIsFieldsText(row);
    assert (FieldsText(row) + rest)[0] == WriteRow(row)[0];
  }

  /** Rows may also end in carriage return and line feed: the reader takes them for the same rows. */
  lemma CarriageRowReadsBack(row: Row, rest: string)
    requires |row| >= 2 && Clean(row)
    ensures ReadRows(FieldsText(row) + (['\r'] + (['\n'] + rest))) == Prepend(row, ReadRows(rest))
    ensures rest != [] && rest[0] != '\n' && rest[0] != '\r' ==> ReadRows(FieldsText(row) + (['\r'] + rest)) == None
  {
    FieldsStart(row, ['\r'] + (['\n'] + rest));
    FieldsReadBack([], row, '\r', ['\n'] + rest);
    assert (['\n'] + rest)[1..] == rest && [] + row == row;
    FieldsStart(row, ['\r'] + rest);
    FieldsReadBack([], row, '\r', rest);
  }

  /** The last row needs no line end, and a carriage return is enough. */
  lemma LastRowReadsBack(row: Row)
    requires |row| >= 2 && Clean(row)
    ensures ReadRows(FieldsText(row)) == Some([row]) && ReadRows(FieldsText(row) + ['\r']) == Some([row])
  {
    FieldsStart(row, []);
    assert FieldsText(row) + [] == FieldsText(row) && [] + row == row;
    LastFieldsReadBack([], row);
    LastReturnReadsBack(row);
  }

  lemma LastReturnReadsBack(row: Row)
    requires |row| >= 2 && Clean(row)
    ensures ReadRows(FieldsText(row) + ['\r']) == Some([row])
  {
    FieldsStart(row, ['\r']);
    FieldsReadBack([], row, '\r', []);
    assert ['\r'] + [] == ['\r'] && [] + row == row && [row] + [] == [row];
  }

  lemma ReturnThenFeed(rest: string)
    ensures Read(EatReturn, [], [], ['\n'] + rest) == ReadRows(rest)
    ensures Read(EatReturn, [], [], ['\r'] + rest) == Read(EatReturn, [], [], rest)
  {
    assert (['\n'] + rest)[1..] == rest && (['\r'] + rest)[1..] == rest;
  }

  lemma RecordStarts(rest: string)
    ensures ReadRows(['\n'] + rest) == Prepend([], ReadRows(rest))
    ensures ReadRows(['\r'] + rest) == Prepend([], Read(EatReturn, [], [], rest))
  {
    assert (['\n'] + rest)[1..] == rest && (['\r'] + rest)[1..] == rest;
  }

  /** An empty line is a row without fields, however it ends; of several carriage returns before a line feed only the
      first one counts. */
  lemma EmptyLineIsRow(rest: string)
    ensures ReadRows(['\n'] + rest) == Prepend([], ReadRows(rest))
    ensures ReadRows(['\r'] + (['\n'] + rest)) == Prepend([], ReadRows(rest))
    ensures ReadRows(['\r'] + (['\r'] + (['\n'] + rest))) == Prepend([], ReadRows(rest))
  {
    RecordStarts(rest);
    RecordStarts(['\n'] + rest);
    RecordStarts(['\r'] + (['\n'] + rest));
    ReturnThenFeed(rest);
    ReturnThenFeed(['\n'] + rest);
  }
}

/** CSV export: a list of rows (records of named values) becomes a document
    whose first line is the first row's keys and whose other lines hold each
    row's values in that key order. A value holding a comma, a quote or a
    newline is quoted with its quotes doubled, as in section 2 of RFC 4180
    (rules 6 and 7); lines are separated by "\n" rather than CRLF.

    The partner of the writer is a reader for that format: reading the
    document back gives the header and every row's values as text. */
module Csv {
  import opened Common
  import opened Strings

  /** A row value: `null`/`undefined`, a string, or a whole number. */
  datatype Value = Absent | Str(s: string) | Num(n: int)

  datatype Field = Field(name: string, value: Value)

  /** A record, its keys in insertion order. */
  type Row = seq<Field>

  /** The keys of a row, in order (`Object.keys`). */
  function Names(row: Row): (r: seq<string>)
    ensures |r| == |row|
    ensures forall i :: 0 <= i < |row| ==> r[i] == row[i].name
  {
    if row == [] then [] else [row[0].name] + Names(row[1..])
  }

  /** `row[key]`: the value under that name, `Absent` when there is none. A
      JavaScript object holds each key once; every row the exporter is given
      is built by `Record` from distinct names, so the first match taken here
      is the only one. */
  function Lookup(row: Row, key: string): (v: Value)
    ensures (forall i :: 0 <= i < |row| ==> row[i].name != key) ==> v == Absent
    ensures (exists i :: 0 <= i < |row| && row[i].name == key) ==> exists i :: 0 <= i < |row| && row[i].name == key && v == row[i].value
  {
    if row == [] then Absent
    else if row[0].name == key then row[0].value
    else
      var v := Lookup(row[1..], key);
      assert forall i :: 1 <= i < |row| ==> row[1..][i - 1] == row[i];
      v
  }

  /** The record with the given keys, in order, holding the given values. */
  function Record(names: seq<string>, values: seq<Value>): (row: Row)
    requires |names| == |values|
    ensures |row| == |names|
    ensures forall i :: 0 <= i < |names| ==> row[i] == Field(names[i], values[i])
  {
    if names == [] then []
    else Record(names[..|names| - 1], values[..|values| - 1]) + [Field(names[|names| - 1], values[|values| - 1])]
  }

  /** The key of a row's field `i` selects that field when the keys are distinct. */
  lemma {:induction false} LookupDistinct(row: Row, i: nat)
    requires i < |row| && Distinct(Names(row))
    ensures Lookup(row, row[i].name) == row[i].value
  {
    if i > 0 {
      assert Names(row)[0] != Names(row)[i];
      assert Names(row[1..]) == Names(row)[1..];
      LookupDistinct(row[1..], i - 1);
    }
  }

  /** A record's keys are the given keys, and each key looks up its own value. */
  lemma LookupRecord(names: seq<string>, values: seq<Value>)
    requires |names| == |values| && Distinct(names)
    ensures Names(Record(names, values)) == names
    ensures forall i :: 0 <= i < |names| ==> Lookup(Record(names, values), names[i]) == values[i]
  {
    var row := Record(names, values);
    assert Names(row) == names;
    forall i | 0 <= i < |names| ensures Lookup(row, names[i]) == values[i] {
      LookupDistinct(row, i);
    }
  }

  /** A record's keys are the given keys, in order. */
  lemma RecordNames(names: seq<string>, values: seq<Value>)
    requires |names| == |values|
    ensures Names(Record(names, values)) == names
  {
    assert forall i :: 0 <= i < |names| ==> Names(Record(names, values))[i] == names[i];
  }

  /** One key of a record with distinct keys looks up its own value. */
  lemma LookupAt(names: seq<string>, values: seq<Value>, i: nat)
    requires |names| == |values| && Distinct(names) && i < |names|
    ensures Lookup(Record(names, values), names[i]) == values[i]
  {
    RecordNames(names, values);
    LookupDistinct(Record(names, values), i);
  }

  /** `String(value)`, with `null`/`undefined` read as the empty text. */
  function Text(v: Value): string
  {
    match v
    case Absent => ""
    case Str(s) => s
    case Num(n) => IntToString(n)
  }

  /** The text must be quoted: it holds a comma, a quote or a newline. */
  predicate NeedsQuotes(s: string)
  {
    ',' in s || '"' in s || '\n' in s
  }

  /** `s.replace(/"/g, '""')`. */
  function DoubleQuotes(s: string): (r: string)
    ensures |r| >= |s|
    ensures '"' !in s ==> r == s
  {
    if s == [] then []
    else (if s[0] == '"' then "\"\"" else [s[0]]) + DoubleQuotes(s[1..])
  }

  /** The cell written for a text. */
  function EscapeText(s: string): string
  {
    if NeedsQuotes(s) then "\"" + DoubleQuotes(s) + "\"" else s
  }

  /** The cell written for a value: empty for `null`/`undefined`. */
  function Escape(v: Value): (cell: string)
    ensures v == Absent ==> cell == ""
    ensures v != Absent && !NeedsQuotes(Text(v)) ==> cell == Text(v)
    ensures NeedsQuotes(Text(v)) ==> |cell| >= 2 && cell[0] == '"' && cell[|cell| - 1] == '"'
  {
    if v == Absent then "" else EscapeText(Text(v))
  }

  /** The values of a row in header order, as written. */
  function Cells(row: Row, headers: seq<string>): (r: seq<string>)
    ensures |r| == |headers|
    ensures forall i :: 0 <= i < |headers| ==> r[i] == Escape(Lookup(row, headers[i]))
  {
    if headers == [] then [] else [Escape(Lookup(row, headers[0]))] + Cells(row, headers[1..])
  }

  /** One line per row. */
  function Lines(rows: seq<Row>, headers: seq<string>): (r: seq<string>)
    ensures |r| == |rows|
    ensures forall i :: 0 <= i < |rows| ==> r[i] == Join(Cells(rows[i], headers), ',')
  {
    if rows == [] then [] else [Join(Cells(rows[0], headers), ',')] + Lines(rows[1..], headers)
  }

  /** `exportToCSV`'s document; `None` when there are no rows (nothing is downloaded). */
  function ExportCsv(data: seq<Row>): (doc: Option<string>)
    ensures doc.None? <==> data == []
  {
    if data == [] then None
    else
      var headers := Names(data[0]);
      Some(Join([Join(headers, ',')] + Lines(data, headers), '\n'))
  }

  // ---------------------------------------------------------------------
  // Reading a document back

  /** Strips the outer quotes of a quoted cell and halves its doubled quotes. */
  function Unquote(cell: string): Option<string>
  {
    if |cell| >= 2 && cell[0] == '"' && cell[|cell| - 1] == '"' then
      match ReadQuoted(cell[1..])
      case Some((v, rest)) => if rest == [] then Some(v) else None
      case None => None
    else None
  }

  /** The body of a quoted field, after its opening quote: up to the closing
      quote, each doubled quote read as one. Returns the value and what
      follows the closing quote. */
  function ReadQuoted(s: string): (r: Option<(string, string)>)
    ensures r.Some? ==> |r.value.1| < |s|
  {
    if s == [] then None
    else if s[0] == '"' then
      if |s| >= 2 && s[1] == '"' then
        match ReadQuoted(s[2..])
        case None => None
        case Some((v, rest)) => Some(("\"" + v, rest))
      else Some(("", s[1..]))
    else
      match ReadQuoted(s[1..])
      case None => None
      case Some((v, rest)) => Some(([s[0]] + v, rest))
  }

  /** An unquoted field: up to the next comma or newline. */
  function ReadPlain(s: string): (r: (string, string))
    ensures |r.1| <= |s|
  {
    if s == [] || s[0] == ',' || s[0] == '\n' then ("", s)
    else
      var (v, rest) := ReadPlain(s[1..]);
      ([s[0]] + v, rest)
  }

  function ReadField(s: string): (r: Option<(string, string)>)
    ensures r.Some? ==> |r.value.1| <= |s|
  {
    if s != [] && s[0] == '"' then ReadQuoted(s[1..]) else Some(ReadPlain(s))
  }

  /** One record: its fields, and the text after its newline (`None` when the
      record ends the document). A field not followed by a comma, a newline
      or the end is malformed. */
  function ReadRecord(s: string): (r: Option<(seq<string>, Option<string>)>)
    ensures r.Some? && r.value.1.Some? ==> |r.value.1.value| < |s|
    decreases |s|
  {
    match ReadField(s)
    case None => None
    case Some((v, rest)) =>
      if rest == [] then Some(([v], None))
      else if rest[0] == '\n' then Some(([v], Some(rest[1..])))
      else if rest[0] == ',' then
        match ReadRecord(rest[1..])
        case None => None
        case Some((vs, next)) => Some(([v] + vs, next))
      else None
  }

  /** Every record of a document. */
  function ReadDocument(s: string): Option<seq<seq<string>>>
    decreases |s|
  {
    match ReadRecord(s)
    case None => None
    case Some((record, None)) => Some([record])
    case Some((record, Some(rest))) =>
      match ReadDocument(rest)
      case None => None
      case Some(records) => Some([record] + records)
  }

  // ---------------------------------------------------------------------
  // Round trip

  lemma ReadQuotedPair(t: string, v: string, rest: string)
    requires ReadQuoted(t) == Some((v, rest))
    ensures ReadQuoted("\"\"" + t) == Some(("\"" + v, rest))
  {
    var s := "\"\"" + t;
    assert s[0] == '"' && s[1] == '"' && s[2..] == t;
  }

  lemma ReadQuotedChar(c: char, t: string, v: string, rest: string)
    requires c != '"' && ReadQuoted(t) == Some((v, rest))
    ensures ReadQuoted([c] + t) == Some(([c] + v, rest))
  {
    var s := [c] + t;
    assert s[0] == c && s[1..] == t;
  }

  lemma ReadQuotedClose(rest: string)
    requires rest == [] || rest[0] != '"'
    ensures ReadQuoted("\"" + rest) == Some(("", rest))
  {
    var s := "\"" + rest;
    assert s[0] == '"' && s[1..] == rest;
  }

  /** A quoted body reads back as the text it was made from, provided what
      follows the closing quote is not another quote. */
  lemma {:induction false} ReadQuotedDoubled(v: string, rest: string)
    requires rest == [] || rest[0] != '"'
    ensures ReadQuoted(DoubleQuotes(v) + "\"" + rest) == Some((v, rest))
  {
    if v == [] {
      assert DoubleQuotes(v) + "\"" + rest == "\"" + rest;
      ReadQuotedClose(rest);
    } else {
      ReadQuotedDoubled(v[1..], rest);
      ReadQuotedCons(v, rest);
    }
  }

  lemma ReadQuotedCons(v: string, rest: string)
    requires v != []
    requires ReadQuoted(DoubleQuotes(v[1..]) + "\"" + rest) == Some((v[1..], rest))
    ensures ReadQuoted(DoubleQuotes(v) + "\"" + rest) == Some((v, rest))
  {
    if v[0] == '"' {
      ReadQuotedConsQuote(v, rest);
    } else {
      ReadQuotedConsChar(v, rest);
    }
  }

  lemma ReadQuotedConsQuote(v: string, rest: string)
    requires v != [] && v[0] == '"'
    requires ReadQuoted(DoubleQuotes(v[1..]) + "\"" + rest) == Some((v[1..], rest))
    ensures ReadQuoted(DoubleQuotes(v) + "\"" + rest) == Some((v, rest))
  {
    var tail := DoubleQuotes(v[1..]) + "\"" + rest;
    assert DoubleQuotes(v) + "\"" + rest == "\"\"" + tail by {
      assert DoubleQuotes(v) == "\"\"" + DoubleQuotes(v[1..]);
    }
    ReadQuotedPair(tail, v[1..], rest);
    assert "\"" + v[1..] == v;
  }

  lemma ReadQuotedConsChar(v: string, rest: string)
    requires v != [] && v[0] != '"'
    requires ReadQuoted(DoubleQuotes(v[1..]) + "\"" + rest) == Some((v[1..], rest))
    ensures ReadQuoted(DoubleQuotes(v) + "\"" + rest) == Some((v, rest))
  {
    var tail := DoubleQuotes(v[1..]) + "\"" + rest;
    assert DoubleQuotes(v) + "\"" + rest == [v[0]] + tail by {
      assert DoubleQuotes(v) == [v[0]] + DoubleQuotes(v[1..]);
    }
    ReadQuotedChar(v[0], tail, v[1..], rest);
    assert [v[0]] + v[1..] == v;
  }

  /** Stripping the outer quotes of a quoted cell and halving the doubled
      quotes gives the text back. */
  lemma UnquoteEscaped(s: string)
    requires NeedsQuotes(s)
    ensures Unquote(EscapeText(s)) == Some(s)
  {
    var body := DoubleQuotes(s) + "\"";
    assert body + "" == body;
    ReadQuotedDoubled(s, "");
    assert EscapeText(s) == "\"" + body;
    UnquoteBody(EscapeText(s), body, s);
  }

  lemma UnquoteBody(cell: string, body: string, v: string)
    requires cell == "\"" + body && body != [] && body[|body| - 1] == '"'
    requires ReadQuoted(body) == Some((v, ""))
    ensures Unquote(cell) == Some(v)
  {
    assert cell[1..] == body;
  }

  /** A delimiter follows, or nothing does. */
  predicate AtBoundary(rest: string)
  {
    rest == [] || rest[0] == ',' || rest[0] == '\n'
  }

  lemma {:induction false} ReadPlainText(v: string, rest: string)
    requires ',' !in v && '\n' !in v && AtBoundary(rest)
    ensures ReadPlain(v + rest) == (v, rest)
  {
    if v == [] {
      assert v + rest == rest;
    } else {
      assert (v + rest)[1..] == v[1..] + rest;
      ReadPlainText(v[1..], rest);
      assert [v[0]] + v[1..] == v;
    }
  }

  lemma ReadFieldQuoted(body: string)
    ensures ReadField("\"" + body) == ReadQuoted(body)
  {
    assert ("\"" + body)[1..] == body;
  }

  lemma ReadFieldPlain(t: string)
    requires t == [] || t[0] != '"'
    ensures ReadField(t) == Some(ReadPlain(t))
  {
  }

  /** A written cell reads back as its text when a delimiter or the end follows it. */
  lemma ReadEscaped(s: string, rest: string)
    requires AtBoundary(rest)
    ensures ReadField(EscapeText(s) + rest) == Some((s, rest))
  {
    if NeedsQuotes(s) {
      ReadEscapedQuoted(s, rest);
    } else {
      ReadEscapedPlain(s, rest);
    }
  }

  lemma ReadEscapedQuoted(s: string, rest: string)
    requires AtBoundary(rest) && NeedsQuotes(s)
    ensures ReadField(EscapeText(s) + rest) == Some((s, rest))
  {
    var body := DoubleQuotes(s) + "\"" + rest;
    assert EscapeText(s) + rest == "\"" + body;
    ReadQuotedDoubled(s, rest);
    ReadFieldQuoted(body);
  }

  lemma ReadEscapedPlain(s: string, rest: string)
    requires AtBoundary(rest) && !NeedsQuotes(s)
    ensures ReadField(EscapeText(s) + rest) == Some((s, rest))
  {
    ReadPlainText(s, rest);
    assert s + rest == [] || (s + rest)[0] != '"' by {
      if s != [] {
        assert (s + rest)[0] == s[0] && s[0] in s;
      } else {
        assert s + rest == rest;
      }
    }
    ReadFieldPlain(s + rest);
  }

  /** `EscapeText` applied to each text. */
  function EscapeAll(texts: seq<string>): (r: seq<string>)
    ensures |r| == |texts|
    ensures forall i :: 0 <= i < |texts| ==> r[i] == EscapeText(texts[i])
  {
    if texts == [] then [] else [EscapeText(texts[0])] + EscapeAll(texts[1..])
  }

  /** The text after a record's end: `None` at the end of the document. */
  function After(tail: Option<string>): string
  {
    if tail.Some? then "\n" + tail.value else ""
  }

  lemma ReadRecordLast(cell: string, text: string, tail: Option<string>)
    requires ReadField(cell + After(tail)) == Some((text, After(tail)))
    ensures ReadRecord(cell + After(tail)) == Some(([text], tail))
  {
    if tail.Some? {
      assert After(tail)[1..] == tail.value;
    }
  }

  lemma ReadRecordMore(cell: string, text: string, restLine: string, texts: seq<string>, tail: Option<string>)
    requires ReadField(cell + ([','] + restLine)) == Some((text, [','] + restLine))
    requires ReadRecord(restLine) == Some((texts, tail))
    ensures ReadRecord(cell + ([','] + restLine)) == Some(([text] + texts, tail))
  {
    assert ([','] + restLine)[1..] == restLine;
  }

  /** The text of a record's line followed by what comes after it. */
  function RecordText(texts: seq<string>, tail: Option<string>): string
    requires |texts| >= 1
  {
    if |texts| == 1 then EscapeText(texts[0]) + After(tail)
    else EscapeText(texts[0]) + ([','] + RecordText(texts[1..], tail))
  }

  /** The record text is the joined cells followed by what comes after them. */
  lemma {:induction false} RecordTextIsLine(texts: seq<string>, tail: Option<string>)
    requires |texts| >= 1
    ensures RecordText(texts, tail) == Join(EscapeAll(texts), ',') + After(tail)
  {
    if |texts| >= 2 {
      RecordTextIsLine(texts[1..], tail);
      LineCons(texts, After(tail));
    }
  }

  /** A line of written cells reads back as the record of their texts. */
  lemma ReadLine(texts: seq<string>, tail: Option<string>)
    requires |texts| >= 1
    ensures ReadRecord(Join(EscapeAll(texts), ',') + After(tail)) == Some((texts, tail))
  {
    RecordTextIsLine(texts, tail);
    ReadRecordText(texts, tail);
  }

  lemma {:induction false} ReadRecordText(texts: seq<string>, tail: Option<string>)
    requires |texts| >= 1
    ensures ReadRecord(RecordText(texts, tail)) == Some((texts, tail))
  {
    if |texts| == 1 {
      ReadEscaped(texts[0], After(tail));
      ReadRecordLast(EscapeText(texts[0]), texts[0], tail);
      assert [texts[0]] == texts;
    } else {
      ReadRecordText(texts[1..], tail);
      ReadCellThenRecord(RecordText(texts, tail), texts[0], RecordText(texts[1..], tail), texts[1..], tail);
      assert [texts[0]] + texts[1..] == texts;
    }
  }

  lemma LineCons(texts: seq<string>, end: string)
    requires |texts| >= 2
    ensures Join(EscapeAll(texts), ',') + end
      == EscapeText(texts[0]) + ([','] + (Join(EscapeAll(texts[1..]), ',') + end))
  {
    var cells := EscapeAll(texts);
    assert EscapeAll(texts[1..]) == cells[1..];
    JoinCons(cells, ',', end);
  }

  lemma ReadCellThenRecord(line: string, text: string, restLine: string, texts: seq<string>, tail: Option<string>)
    requires line == EscapeText(text) + ([','] + restLine)
    requires ReadRecord(restLine) == Some((texts, tail))
    ensures ReadRecord(line) == Some(([text] + texts, tail))
  {
    ReadEscaped(text, [','] + restLine);
    ReadRecordMore(EscapeText(text), text, restLine, texts, tail);
  }

  /** The text of a document holding the given records' lines. */
  function DocumentText(records: seq<seq<string>>): string
    requires |records| >= 1
    requires forall i :: 0 <= i < |records| ==> |records[i]| >= 1
  {
    if |records| == 1 then RecordText(records[0], None)
    else RecordText(records[0], Some(DocumentText(records[1..])))
  }

  lemma {:induction false} DocumentTextIsJoin(records: seq<seq<string>>)
    requires |records| >= 1
    requires forall i :: 0 <= i < |records| ==> |records[i]| >= 1
    ensures DocumentText(records) == Join(LinesOf(records), '\n')
  {
    if |records| == 1 {
      RecordTextIsLine(records[0], None);
      assert Join(LinesOf(records), '\n') == Join(EscapeAll(records[0]), ',') + After(None);
    } else {
      DocumentTextIsJoin(records[1..]);
      RecordTextIsLine(records[0], Some(DocumentText(records[1..])));
      LinesOfCons(records);
    }
  }

  /** The document of written lines reads back as the records of their texts. */
  lemma ReadLines(records: seq<seq<string>>)
    requires |records| >= 1
    requires forall i :: 0 <= i < |records| ==> |records[i]| >= 1
    ensures ReadDocument(Join(LinesOf(records), '\n')) == Some(records)
  {
    DocumentTextIsJoin(records);
    ReadDocumentText(records);
  }

  lemma {:induction false} ReadDocumentText(records: seq<seq<string>>)
    requires |records| >= 1
    requires forall i :: 0 <= i < |records| ==> |records[i]| >= 1
    ensures ReadDocument(DocumentText(records)) == Some(records)
  {
    if |records| == 1 {
      ReadRecordText(records[0], None);
      assert [records[0]] == records;
    } else {
      var rest := DocumentText(records[1..]);
      ReadDocumentText(records[1..]);
      ReadRecordText(records[0], Some(rest));
      ReadDocumentStep(DocumentText(records), records[0], rest, records[1..]);
      assert [records[0]] + records[1..] == records;
    }
  }

  lemma LinesOfCons(records: seq<seq<string>>)
    requires |records| >= 2
    ensures Join(LinesOf(records), '\n')
      == Join(EscapeAll(records[0]), ',') + After(Some(Join(LinesOf(records[1..]), '\n')))
  {
    var lines := LinesOf(records);
    var rest := Join(LinesOf(records[1..]), '\n');
    assert LinesOf(records[1..]) == lines[1..];
    JoinCons(lines, '\n', "");
    assert Join(lines, '\n') + "" == Join(lines, '\n');
    assert rest + "" == rest;
    assert lines[0] == Join(EscapeAll(records[0]), ',');
  }

  lemma ReadDocumentStep(doc: string, record: seq<string>, rest: string, records: seq<seq<string>>)
    requires ReadRecord(doc) == Some((record, Some(rest)))
    requires ReadDocument(rest) == Some(records)
    ensures ReadDocument(doc) == Some([record] + records)
  {
  }

  /** Each record written as one line of escaped cells. */
  function LinesOf(records: seq<seq<string>>): (r: seq<string>)
    ensures |r| == |records|
    ensures forall i :: 0 <= i < |records| ==> r[i] == Join(EscapeAll(records[i]), ',')
  {
    if records == [] then [] else [Join(EscapeAll(records[0]), ',')] + LinesOf(records[1..])
  }

  /** The texts of a row's values in header order (absent ones empty). */
  function Texts(row: Row, headers: seq<string>): (r: seq<string>)
    ensures |r| == |headers|
    ensures forall i :: 0 <= i < |headers| ==> r[i] == Text(Lookup(row, headers[i]))
  {
    if headers == [] then [] else [Text(Lookup(row, headers[0]))] + Texts(row, headers[1..])
  }

  function Table(rows: seq<Row>, headers: seq<string>): (r: seq<seq<string>>)
    ensures |r| == |rows|
    ensures forall i :: 0 <= i < |rows| ==> r[i] == Texts(rows[i], headers)
  {
    if rows == [] then [] else [Texts(rows[0], headers)] + Table(rows[1..], headers)
  }

  /** A text without comma, quote or newline is written as it is. */
  lemma PlainUnchanged(texts: seq<string>)
    requires forall i :: 0 <= i < |texts| ==> !NeedsQuotes(texts[i])
    ensures EscapeAll(texts) == texts
  {
  }

  /** The written document reads back as the header line followed by every
      row's values in header order, a key missing from a row giving an empty
      value. This holds when the first row has at least one key and no key
      holds a comma, a quote or a newline (keys are written unquoted). */
  lemma ExportRoundTrip(data: seq<Row>)
    requires data != [] && |data[0]| >= 1
    requires forall i :: 0 <= i < |data[0]| ==> !NeedsQuotes(data[0][i].name)
    ensures ReadDocument(ExportCsv(data).value) == Some([Names(data[0])] + Table(data, Names(data[0])))
  {
    var headers := Names(data[0]);
    var records := [headers] + Table(data, headers);
    var doc := Join([Join(headers, ',')] + Lines(data, headers), '\n');
    assert ExportCsv(data) == Some(doc);
    WrittenLines(data, headers);
    forall i | 0 <= i < |records| ensures |records[i]| >= 1 {
      if i > 0 {
        assert records[i] == Texts(data[i - 1], headers);
      }
    }
    ReadLines(records);
  }

  /** The written lines are the header and each row's texts, escaped. */
  lemma WrittenLines(data: seq<Row>, headers: seq<string>)
    requires forall i :: 0 <= i < |headers| ==> !NeedsQuotes(headers[i])
    ensures [Join(headers, ',')] + Lines(data, headers) == LinesOf([headers] + Table(data, headers))
  {
    var records := [headers] + Table(data, headers);
    var lines := [Join(headers, ',')] + Lines(data, headers);
    PlainUnchanged(headers);
    forall i | 0 <= i < |lines| ensures lines[i] == LinesOf(records)[i] {
      if i > 0 {
        CellsEscapeTexts(data[i - 1], headers);
      }
    }
  }

  /** The cells of a row are the escaped texts of its values. */
  lemma CellsEscapeTexts(row: Row, headers: seq<string>)
    ensures Cells(row, headers) == EscapeAll(Texts(row, headers))
  {
    forall j | 0 <= j < |headers| ensures Cells(row, headers)[j] == EscapeAll(Texts(row, headers))[j] {
      var v := Lookup(row, headers[j]);
      if v == Absent {
        assert Text(v) == "";
      }
    }
  }

  /** The texts of a row's values, in the row's own key order. */
  function RowTexts(row: Row): (r: seq<string>)
    ensures |r| == |row|
    ensures forall i :: 0 <= i < |row| ==> r[i] == Text(row[i].value)
  {
    if row == [] then [] else [Text(row[0].value)] + RowTexts(row[1..])
  }

  /** Looking a row's own keys up, in order, gives its values in order. */
  lemma TextsOwnKeys(row: Row, headers: seq<string>)
    requires Names(row) == headers && Distinct(headers)
    ensures Texts(row, headers) == RowTexts(row)
  {
    forall i | 0 <= i < |row| ensures Texts(row, headers)[i] == RowTexts(row)[i] {
      LookupDistinct(row, i);
    }
  }

  lemma TableOwnKeys(rows: seq<Row>, headers: seq<string>)
    requires Distinct(headers)
    requires forall i :: 0 <= i < |rows| ==> Names(rows[i]) == headers
    ensures Table(rows, headers) == Map(rows, RowTexts)
  {
    forall i | 0 <= i < |rows| ensures Table(rows, headers)[i] == Map(rows, RowTexts)[i] {
      TextsOwnKeys(rows[i], headers);
    }
  }

  /** Rows that share a list of plain, distinct keys read back from their
      document as that header followed by each row's values in order. */
  lemma UniformRowsReadBack(rows: seq<Row>, headers: seq<string>)
    requires rows != [] && headers != [] && Distinct(headers)
    requires forall i :: 0 <= i < |headers| ==> !NeedsQuotes(headers[i])
    requires forall i :: 0 <= i < |rows| ==> Names(rows[i]) == headers
    ensures ReadDocument(ExportCsv(rows).value) == Some([headers] + Map(rows, RowTexts))
  {
    var first := rows[0];
    assert Names(first) == headers;
    assert forall i :: 0 <= i < |first| ==> first[i].name == headers[i];
    ExportRoundTrip(rows);
    TableOwnKeys(rows, headers);
  }
}

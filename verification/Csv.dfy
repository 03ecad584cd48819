/** CSV export (src/domain/analytics/csv.ts) and a reader for the format of section 2 of RFC 4180. */
module Csv {
  import opened JsText
  import opened Seqs

  // ----- the writer -----

  predicate StartsFormula(value: string) {
    value != "" && value[0] in "=+-@\t\r"
  }

  function NeutralizeCsvFormulaPrefix(value: string): string {
    if StartsFormula(value) then "'" + value else value
  }

  function DoubleQuotes(s: string): string {
    if s == "" then "" else (if s[0] == '"' then "\"\"" else [s[0]]) + DoubleQuotes(s[1..])
  }

  /** The text a field is written as before quoting; an absent value is written as the empty text. */
  function CellText(raw: Option<string>): string {
    NeutralizeCsvFormulaPrefix(if raw.Some? then raw.value else "")
  }

  function EscapeCsvField(raw: Option<string>): string {
    "\"" + DoubleQuotes(CellText(raw)) + "\""
  }

  function EscapeAll(fields: seq<Option<string>>): (r: seq<string>)
    ensures |r| == |fields|
  {
    Map(EscapeCsvField, fields)
  }

  function BuildCsvRow(fields: seq<Option<string>>): string {
    Join(EscapeAll(fields), ",") + "\r\n"
  }

  function BuildRows(rows: seq<seq<Option<string>>>): string {
    if rows == [] then "" else BuildCsvRow(rows[0]) + BuildRows(rows[1..])
  }

  /** The header as the first row, then the rows. */
  function Table(headers: seq<string>, rows: seq<seq<Option<string>>>): (r: seq<seq<Option<string>>>)
    ensures |r| == |rows| + 1 && |r[0]| == |headers|
    ensures forall i :: 0 <= i < |rows| ==> r[i + 1] == rows[i]
  {
    [Map((h: string) => Some(h), headers)] + rows
  }

  /** `[buildCsvRow(headers), ...rows.map(buildCsvRow)].join("")`. */
  function BuildCsvDocument(headers: seq<string>, rows: seq<seq<Option<string>>>): string {
    BuildRows(Table(headers, rows))
  }

  // ----- the reader -----

  /** A field and the text after it. */
  datatype Scan = Scan(field: string, rest: string)

  /** The rest of a quoted field after its opening quote: a doubled quote is one quote, a single one closes the field. */
  function ReadQuoted(s: string): (r: Option<Scan>)
    ensures r.Some? ==> |r.value.rest| < |s|
    decreases |s|
  {
    if s == "" then None
    else if s[0] != '"' then
      match ReadQuoted(s[1..])
      case Some(t) => Some(Scan([s[0]] + t.field, t.rest))
      case None => None
    else if |s| >= 2 && s[1] == '"' then
      match ReadQuoted(s[2..])
      case Some(t) => Some(Scan("\"" + t.field, t.rest))
      case None => None
    else Some(Scan("", s[1..]))
  }

  predicate IsPlain(c: char) {
    c != '"' && c != ',' && c != '\r' && c != '\n'
  }

  /** One field: quoted, or a possibly empty run of plain characters. */
  function ReadField(s: string): (r: Option<Scan>)
    ensures r.Some? ==> |r.value.rest| <= |s|
  {
    if s != "" && s[0] == '"' then ReadQuoted(s[1..])
    else
      var e := RunEnd(s, 0, IsPlain);
      Some(Scan(s[..e], s[e..]))
  }

  datatype RecordScan = RecordScan(record: seq<string>, rest: string)

  /** One record: fields separated by commas, up to a CRLF or the end of the text. */
  function ReadRecord(s: string): (r: Option<RecordScan>)
    ensures r.Some? ==> |r.value.rest| <= |s|
    ensures r.Some? && s != "" ==> |r.value.rest| < |s|
    decreases |s|
  {
    var f := ReadField(s);
    if f.None? then None
    else if f.value.rest == "" then Some(RecordScan([f.value.field], ""))
    else if f.value.rest[0] == ',' then
      match ReadRecord(f.value.rest[1..])
      case Some(t) => Some(RecordScan([f.value.field] + t.record, t.rest))
      case None => None
    else if "\r\n" <= f.value.rest then Some(RecordScan([f.value.field], f.value.rest[2..]))
    else None
  }

  /** All records of a text; a line break after the last record is optional. */
  function ReadCsv(s: string): Option<seq<seq<string>>>
    decreases |s|
  {
    if s == "" then Some([])
    else
      match ReadRecord(s)
      case None => None
      case Some(t) =>
        match ReadCsv(t.rest)
        case None => None
        case Some(records) => Some([t.record] + records)
  }

  // ----- the reader undoes the writer -----

  function CellTexts(fields: seq<Option<string>>): (r: seq<string>)
    ensures |r| == |fields|
  {
    Map(CellText, fields)
  }

  function TableTexts(rows: seq<seq<Option<string>>>): seq<seq<string>> {
    if rows == [] then [] else [CellTexts(rows[0])] + TableTexts(rows[1..])
  }

  /** What the reader makes of a table: a row without fields comes back as one empty field. */
  function ReadBack(rows: seq<seq<Option<string>>>): seq<seq<string>> {
    if rows == [] then [] else [if rows[0] == [] then [""] else CellTexts(rows[0])] + ReadBack(rows[1..])
  }

  lemma {:induction false} ReadsQuoted(s: string, rest: string)
    requires rest == "" || rest[0] != '"'
    ensures ReadQuoted(DoubleQuotes(s) + "\"" + rest) == Some(Scan(s, rest))
  {
    var t := DoubleQuotes(s) + "\"" + rest;
    if s == "" {
      assert t == "\"" + rest && t[1..] == rest;
    } else {
      ReadsQuoted(s[1..], rest);
      var tail := DoubleQuotes(s[1..]) + "\"" + rest;
      if s[0] == '"' {
        assert t == "\"\"" + tail && t[2..] == tail;
        assert "\"" + s[1..] == s;
      } else {
        assert t == [s[0]] + tail && t[1..] == tail;
        assert [s[0]] + s[1..] == s;
      }
    }
  }

  lemma {:induction false} ReadsField(raw: Option<string>, rest: string)
    requires rest == "" || rest[0] != '"'
    ensures ReadField(EscapeCsvField(raw) + rest) == Some(Scan(CellText(raw), rest))
  {
    hide CellText, ReadQuoted, DoubleQuotes;
    var t := EscapeCsvField(raw) + rest;
    ReadsQuoted(CellText(raw), rest);
    assert t[0] == '"';
    assert t[1..] == DoubleQuotes(CellText(raw)) + "\"" + rest;
  }

  /** Every field is quoted, needed or not, and the quotes close where the field ends. */
  lemma {:induction false} EveryFieldIsQuoted(raw: Option<string>)
    ensures var field := EscapeCsvField(raw);
            && |field| >= 2 && field[0] == '"' && field[|field| - 1] == '"'
            && ReadQuoted(field[1..]) == Some(Scan(CellText(raw), ""))
  {
    hide CellText, DoubleQuotes;
    var field := EscapeCsvField(raw);
    assert field[1..] == DoubleQuotes(CellText(raw)) + "\"" + "";
    ReadsQuoted(CellText(raw), "");
  }

  lemma {:induction false} WrittenFields()
    ensures EscapeCsvField(Some("a\"b")) == "\"a\"\"b\"" && EscapeCsvField(None) == "\"\""
    ensures EscapeCsvField(Some("=c\n")) == "\"'=c\n\""
  {
    assert DoubleQuotes("a\"b") == "a\"\"b" && DoubleQuotes("") == "" && DoubleQuotes("'=c\n") == "'=c\n";
    assert CellText(Some("a\"b")) == "a\"b" && CellText(None) == "" && CellText(Some("=c\n")) == "'=c\n";
  }

  /** Fields are separated by commas and a row ends in CRLF. */
  lemma {:induction false} WrittenRow()
    ensures BuildCsvRow([Some("a\"b"), None, Some("=c\n")]) == "\"a\"\"b\",\"\",\"'=c\n\"\r\n"
  {
    hide EscapeCsvField;
    WrittenFields();
    var fields := EscapeAll([Some("a\"b"), None, Some("=c\n")]);
    assert fields == ["\"a\"\"b\"", "\"\"", "\"'=c\n\""];
    assert fields[1..] == ["\"\"", "\"'=c\n\""] && fields[1..][1..] == ["\"'=c\n\""];
  }

  lemma {:induction false} ReadsRecord(fields: seq<Option<string>>, rest: string)
    requires fields != []
    ensures ReadRecord(BuildCsvRow(fields) + rest) == Some(RecordScan(CellTexts(fields), rest))
  {
    hide ReadField, EscapeCsvField, CellText;
    var t := BuildCsvRow(fields) + rest;
    if |fields| == 1 {
      assert t == EscapeCsvField(fields[0]) + ("\r\n" + rest);
      ReadsField(fields[0], "\r\n" + rest);
      assert ("\r\n" + rest)[2..] == rest;
      assert CellTexts(fields) == [CellText(fields[0])];
    } else {
      var tail := BuildCsvRow(fields[1..]) + rest;
      assert EscapeAll(fields)[1..] == EscapeAll(fields[1..]);
      assert t == EscapeCsvField(fields[0]) + ("," + tail);
      ReadsField(fields[0], "," + tail);
      assert ("," + tail)[1..] == tail;
      ReadsRecord(fields[1..], rest);
      assert CellTexts(fields) == [CellText(fields[0])] + CellTexts(fields[1..]);
    }
  }

  /** A row without fields is written as an empty line and read back as one empty field. */
  lemma {:induction false} ReadsEmptyRow(rest: string)
    ensures ReadRecord(BuildCsvRow([]) + rest) == Some(RecordScan([""], rest))
  {
    var t := BuildCsvRow([]) + rest;
    assert t == "\r\n" + rest;
    assert RunEnd(t, 0, IsPlain) == 0;
    assert t[0..] == t && t[2..] == rest && t[..0] == "";
  }

  lemma {:induction false} ReadsRows(rows: seq<seq<Option<string>>>)
    ensures ReadCsv(BuildRows(rows)) == Some(ReadBack(rows))
  {
    hide CellTexts, ReadRecord, BuildCsvRow;
    if rows != [] {
      var rest := BuildRows(rows[1..]);
      ReadsRows(rows[1..]);
      if rows[0] == [] { ReadsEmptyRow(rest); } else { ReadsRecord(rows[0], rest); }
      RowIsNotEmpty(rows[0]);
    }
  }

  lemma {:induction false} ReadBackIsTableExactly(rows: seq<seq<Option<string>>>)
    ensures ReadBack(rows) == TableTexts(rows) <==> forall i :: 0 <= i < |rows| ==> rows[i] != []
  {
    if rows != [] {
      ReadBackIsTableExactly(rows[1..]);
      assert ReadBack(rows)[0] == TableTexts(rows)[0] <==> rows[0] != [];
      assert ReadBack(rows)[1..] == ReadBack(rows[1..]) && TableTexts(rows)[1..] == TableTexts(rows[1..]);
      assert forall i :: 0 < i < |rows| ==> rows[i] == rows[1..][i - 1];
      if forall i :: 0 <= i < |rows| ==> rows[i] != [] {
        assert forall i :: 0 <= i < |rows[1..]| ==> rows[1..][i] == rows[i + 1];
      }
    }
  }

  lemma {:induction false} RowIsNotEmpty(fields: seq<Option<string>>)
    ensures BuildCsvRow(fields) != ""
  {
  }

  /** Exactly when the export reads back as the table that was written: when no row, header included, is without fields. */
  lemma {:induction false} CsvRoundTrip(headers: seq<string>, rows: seq<seq<Option<string>>>)
    ensures ReadCsv(BuildCsvDocument(headers, rows)) == Some(TableTexts(Table(headers, rows)))
            <==> headers != [] && forall i :: 0 <= i < |rows| ==> rows[i] != []
  {
    hide CellTexts, ReadCsv, BuildRows, ReadBack, TableTexts, Table;
    var table := Table(headers, rows);
    ReadsRows(table);
    ReadBackIsTableExactly(table);
    if headers != [] && forall i :: 0 <= i < |rows| ==> rows[i] != [] {
      assert forall i :: 0 < i < |table| ==> table[i] == rows[i - 1];
    }
  }

  // ----- neutralization -----

  /** No cell that is written starts a formula. */
  lemma {:induction false} CellsAreNoFormulas(raw: Option<string>)
    ensures !StartsFormula(CellText(raw))
    ensures raw.Some? && !StartsFormula(raw.value) ==> CellText(raw) == raw.value
  {
  }

  ghost predicate HasNoFormula(record: seq<string>) {
    forall j :: 0 <= j < |record| ==> !StartsFormula(record[j])
  }

  lemma {:induction false} NoFormulaIsReadBack(rows: seq<seq<Option<string>>>)
    ensures forall i :: 0 <= i < |ReadBack(rows)| ==> HasNoFormula(ReadBack(rows)[i])
  {
    hide CellText, StartsFormula;
    if rows != [] {
      NoFormulaIsReadBack(rows[1..]);
      forall j | 0 <= j < |rows[0]|
        ensures !StartsFormula(CellTexts(rows[0])[j])
      {
        CellsAreNoFormulas(rows[0][j]);
      }
      CellsAreNoFormulas(None);
      EmptyCell();
    }
  }

  lemma {:induction false} EmptyCell()
    ensures CellText(None) == ""
  {
  }

  /** Whoever reads an export back, whatever its values, finds no cell that starts with one of the six characters. */
  lemma {:induction false} ExportHasNoFormulas(headers: seq<string>, rows: seq<seq<Option<string>>>)
    ensures ReadCsv(BuildCsvDocument(headers, rows)).Some?
    ensures var records := ReadCsv(BuildCsvDocument(headers, rows)).value;
            forall record, cell :: record in records && cell in record ==>
              cell == "" || cell[0] !in {'=', '+', '-', '@', '\t', '\r'}
  {
    hide ReadCsv, BuildRows, ReadBack, Table;
    ReadsRows(Table(headers, rows));
    NoFormulaIsReadBack(Table(headers, rows));
    var records := ReadCsv(BuildCsvDocument(headers, rows)).value;
    forall record, cell | record in records && cell in record
      ensures !StartsFormula(cell)
    {
      var i :| 0 <= i < |records| && records[i] == record;
      assert HasNoFormula(records[i]);
    }
  }

  /** Any value is written as it is or behind an apostrophe, and the latter exactly when it starts with one of the six. */
  lemma {:induction false} WrittenBehindApostropheExactly(value: string)
    ensures CellText(Some(value)) == value || CellText(Some(value)) == "'" + value
    ensures CellText(Some(value)) == "'" + value
            <==> exists c :: c in {'=', '+', '-', '@', '\t', '\r'} && [c] <= value
    ensures CellText(None) == CellText(Some("")) == ""
  {
    if value != "" {
      assert [value[0]] <= value;
    }
  }

  /** Neutralizing confuses two values exactly when one is the other behind an apostrophe and starts a formula. */
  lemma {:induction false} NeutralizedValuesCollideExactly(a: string, b: string)
    ensures NeutralizeCsvFormulaPrefix(a) == NeutralizeCsvFormulaPrefix(b)
            <==> a == b || (StartsFormula(a) && b == "'" + a) || (StartsFormula(b) && a == "'" + b)
  {
    if StartsFormula(a) && StartsFormula(b) && "'" + a == "'" + b {
      assert a == ("'" + a)[1..] == ("'" + b)[1..] == b;
    }
  }
}

/**
 * The two record adapters of src/utils/fileUtils.js: `convertToCSV`, which
 * writes records as CSV text with every data cell quoted in the manner of
 * section 2 item 7 of RFC 4180, and the mapping inside `parseCSVFile` that
 * turns a parsed matrix into records numbered from 0.
 */
module FileUtils {
  import opened Wrappers
  import opened Strings
  import opened Matrices
  import opened Parsing
  import opened Records
  import opened CsvTransformations

  /** `s.replace(/"/g, '""')`: every double quote doubled. */
  function DoubleQuotes(s: string): (r: string)
    ensures |r| == |s| + Count(s, '"')
    ensures forall c :: c in r ==> c in s
    decreases |s|
  {
    if |s| == 0 then ""
    else
      var rest := DoubleQuotes(s[1..]);
      assert forall c :: c in s[1..] ==> c in s;
      (if s[0] == '"' then "\"\"" else [s[0]]) + rest
  }

  /**
   * The inside of an escaped field read back: a pair of double quotes
   * stands for one; a double quote not followed by another is malformed.
   */
  function UndoubleQuotes(s: string): Option<string>
    decreases |s|
  {
    if |s| == 0 then Some("")
    else if s[0] != '"' then
      match UndoubleQuotes(s[1..])
      case Some(t) => Some([s[0]] + t)
      case None => None
    else if |s| >= 2 && s[1] == '"' then
      match UndoubleQuotes(s[2..])
      case Some(t) => Some("\"" + t)
      case None => None
    else None
  }

  /** Un-doubling the doubled text gives back the value. */
  lemma {:induction false} UndoubleDoubled(s: string)
    ensures UndoubleQuotes(DoubleQuotes(s)) == Some(s)
    decreases |s|
  {
    if |s| > 0 {
      UndoubleDoubled(s[1..]);
      var rest := DoubleQuotes(s[1..]);
      if s[0] == '"' {
        var d := "\"\"" + rest;
        assert d[2..] == rest;
        assert [s[0]] + s[1..] == s;
      } else {
        var d := [s[0]] + rest;
        assert d[1..] == rest;
        assert [s[0]] + s[1..] == s;
      }
    }
  }

  /** A lone double quote never survives the doubling. */
  lemma UndoubleRejectsLoneQuote()
    ensures UndoubleQuotes("a\"b") == None
  {
    assert "a\"b"[1..] == "\"b";
  }

  /** One data cell: the doubled value between double quotes. */
  function QuoteCell(value: string): (r: string)
    ensures |r| >= 2 && r[0] == '"' && r[|r| - 1] == '"'
    ensures r[1..|r| - 1] == DoubleQuotes(value)
  {
    "\"" + DoubleQuotes(value) + "\""
  }

  /** An escaped field read back: strip the enclosing quotes and un-double. */
  function Unquote(field: string): Option<string>
  {
    if |field| >= 2 && field[0] == '"' && field[|field| - 1] == '"' then UndoubleQuotes(field[1..|field| - 1])
    else None
  }

  lemma UnquoteQuoted(value: string)
    ensures Unquote(QuoteCell(value)) == Some(value)
  {
    UndoubleDoubled(value);
  }

  /** `String(row[header])`: the value, or "undefined" when the record lacks it. */
  function JsText(v: Option<string>): string
  {
    match v
    case Some(s) => s
    case None => "undefined"
  }

  /** `headers.map(...)`: one quoted cell per header. */
  function QuotedRow(rec: Record, headers: seq<string>): (r: Row)
    ensures |r| == |headers|
    ensures forall j :: 0 <= j < |headers| ==> r[j] == QuoteCell(JsText(Lookup(rec.fields, headers[j])))
  {
    seq(|headers|, j requires 0 <= j < |headers| => QuoteCell(JsText(Lookup(rec.fields, headers[j]))))
  }

  /** The quoted rows of the records, in order. */
  function QuotedRows(data: seq<Record>, headers: seq<string>): (rows: Matrix)
    ensures |rows| == |data|
    ensures forall i :: 0 <= i < |data| ==> rows[i] == QuotedRow(data[i], headers)
  {
    seq(|data|, i requires 0 <= i < |data| => QuotedRow(data[i], headers))
  }

  /** The matrix `convertToCSV` serializes: the bare header names, then the quoted rows. */
  function CsvMatrix(data: seq<Record>): (m: Matrix)
    requires |data| > 0
    ensures |m| == |data| + 1 && m[0] == Headers(data)
    ensures forall i :: 0 <= i < |data| ==> m[i + 1] == QuotedRow(data[i], Headers(data))
  {
    [Headers(data)] + QuotedRows(data, Headers(data))
  }

  /** `convertToCSV`: "" for no records, otherwise the serialized matrix. */
  function ConvertToCsv(data: seq<Record>): string
  {
    if |data| == 0 then "" else SerializeCsv(CsvMatrix(data))
  }

  /** `convertToCSV` as the source performs it: one push per record. */
  method ConvertToCsvText(data: seq<Record>) returns (csv: string)
    ensures csv == ConvertToCsv(data)
  {
    if |data| == 0 {
      return "";
    }
    var headers := Keys(data[0]);
    var matrix := [headers];
    var i := 0;
    while i < |data|
      invariant 0 <= i <= |data|
      invariant matrix == [headers] + QuotedRows(data[..i], headers)
    {
      assert data[..i + 1] == data[..i] + [data[i]];
      assert QuotedRows(data[..i + 1], headers) == QuotedRows(data[..i], headers) + [QuotedRow(data[i], headers)];
      matrix := matrix + [QuotedRow(data[i], headers)];
      i := i + 1;
    }
    assert data[..i] == data;
    csv := SerializeCsv(matrix);
  }

  /** `convertToCSV` gives "" exactly when there are no records: a record adds a line break. */
  lemma ConvertToCsvEmpty(data: seq<Record>)
    ensures ConvertToCsv(data) == "" <==> |data| == 0
  {
    if |data| > 0 {
      var rows := RowTexts(CsvMatrix(data));
      assert |rows| >= 2;
      assert Join(rows, ['\n']) == rows[0] + ['\n'] + Join(rows[1..], ['\n']);
    }
  }

  /** No cell of the CSV matrix holds a newline when no header and no value does. */
  lemma CsvMatrixWithoutNewlines(data: seq<Record>)
    requires |data| > 0
    requires forall j :: 0 <= j < |Headers(data)| ==> '\n' !in Headers(data)[j]
    requires forall i, k :: 0 <= i < |data| && 0 <= k < |data[i].fields| ==> '\n' !in data[i].fields[k].value
    ensures forall i, j :: 0 <= i < |CsvMatrix(data)| && 0 <= j < |CsvMatrix(data)[i]| ==> '\n' !in CsvMatrix(data)[i][j]
  {
    var m := CsvMatrix(data);
    var h := Headers(data);
    forall i, j | 0 <= i < |m| && 0 <= j < |m[i]| ensures '\n' !in m[i][j] {
      if i > 0 {
        assert m[i] == QuotedRow(data[i - 1], h);
        QuotedCellAvoidsNewline(data[i - 1], h[j]);
      }
    }
  }

  /**
   * When no header and no value holds a newline, the text has one line per
   * record after the header line; the header line is the bare names joined
   * by commas, and line i + 1 holds record i's quoted cells.
   */
  lemma ConvertToCsvLines(data: seq<Record>)
    requires |data| > 0
    requires forall j :: 0 <= j < |Headers(data)| ==> '\n' !in Headers(data)[j]
    requires forall i, k :: 0 <= i < |data| && 0 <= k < |data[i].fields| ==> '\n' !in data[i].fields[k].value
    ensures |Split(ConvertToCsv(data), '\n')| == |data| + 1
    ensures Split(ConvertToCsv(data), '\n')[0] == Join(Headers(data), [','])
    ensures forall i :: 0 <= i < |data| ==> Split(ConvertToCsv(data), '\n')[i + 1] == Join(QuotedRow(data[i], Headers(data)), [','])
  {
    var m := CsvMatrix(data);
    assert ConvertToCsv(data) == SerializeCsv(m);
    CsvMatrixWithoutNewlines(data);
    LinesOfSerialized(m);
    assert RowTexts(m)[0] == Join(Headers(data), [',']);
  }

  lemma QuotedCellAvoidsNewline(rec: Record, name: string)
    requires forall k :: 0 <= k < |rec.fields| ==> '\n' !in rec.fields[k].value
    ensures '\n' !in QuoteCell(JsText(Lookup(rec.fields, name)))
  {
    var i := IndexOf(Names(rec.fields), name);
    if 0 <= i {
      assert '\n' !in rec.fields[i].value;
    }
  }

  /**
   * The mapping of `parseCSVFile`: no records from a matrix of at most one
   * row; otherwise record i gets the id i, then one property per header
   * holding the cell below it ("" when missing).
   */
  method RecordsFromMatrix(matrix: Matrix) returns (data: seq<Record>)
    ensures data == MatrixToData(matrix, [])
  {
    if |matrix| <= 1 {
      return [];
    }
    var headers := matrix[0];
    data := [];
    var index := 0;
    while index < |matrix| - 1
      invariant 0 <= index <= |matrix| - 1
      invariant |data| == index
      invariant forall k :: 0 <= k < index ==> data[k] == BuildRecord(headers, matrix[k + 1], NumId(k))
    {
      var obj := FillRecord(headers, matrix[index + 1], NumId(index));
      data := data + [obj];
      index := index + 1;
    }
    forall k | 0 <= k < |data| ensures data[k] == MatrixToData(matrix, [])[k] {
      MatrixToDataAt(matrix, [], k);
    }
  }

  /**
   * With a header of distinct names other than "id", record i of the mapping
   * has id i and pairs each header with the cell below it.
   */
  lemma RecordsFromMatrixZips(matrix: Matrix, i: nat)
    requires |matrix| > 1 && i < |matrix| - 1
    requires Distinct(matrix[0]) && "id" !in matrix[0]
    ensures MatrixToData(matrix, [])[i] == Record(Some(NumId(i)), ZipFields(matrix[0], matrix[i + 1]))
  {
    MatrixToDataZips(matrix, [], i);
  }

  /** A column headed "id" replaces the numbering with the cell text. */
  lemma RecordsFromMatrixIdColumn()
    ensures MatrixToData([["id", "a"], ["7", "x"]], []) == [Record(Some(StrId("7")), [Field("a", "x")])]
  {
    var m := [["id", "a"], ["7", "x"]];
    MatrixToDataAt(m, [], 0);
    var r0 := SetField(Record(Some(NumId(0)), []), "id", "7");
    assert r0 == Record(Some(StrId("7")), []);
    assert CellOr(m[1], 0) == "7" && CellOr(m[1], 1) == "x";
    assert Fill(Record(Some(NumId(0)), []), m[0], m[1], 1) == r0;
    SetFieldAppends(r0, "a", "x");
    assert [] + [Field("a", "x")] == [Field("a", "x")];
    assert Fill(Record(Some(NumId(0)), []), m[0], m[1], 2) == SetField(r0, "a", "x");
    assert IdFor([], 0) == NumId(0);
    assert BuildRecord(m[0], m[1], NumId(0)) == Record(Some(StrId("7")), [Field("a", "x")]);
  }

  /** One record whose value holds a double quote: the quote is doubled and the cell quoted. */
  lemma ConvertToCsvExample()
    ensures ConvertToCsv([Record(Some(NumId(0)), [Field("n", "a\"b")])]) == "n\n\"a\"\"b\""
  {
    var d := [Record(Some(NumId(0)), [Field("n", "a\"b")])];
    assert Names(d[0].fields) == ["n"];
    assert Headers(d) == ["n"];
    LookupAt(d[0].fields, 0);
    assert DoubleQuotes("b") == "b";
    assert DoubleQuotes("\"b") == "\"\"b";
    assert DoubleQuotes("a\"b") == "a\"\"b";
    assert Lookup(d[0].fields, "n") == Some("a\"b");
    assert QuoteCell("a\"b") == "\"a\"\"b\"";
    var m := CsvMatrix(d);
    assert m[1] == QuotedRow(d[0], ["n"]);
    assert QuotedRow(d[0], ["n"])[0] == "\"a\"\"b\"";
    assert m[1] == ["\"a\"\"b\""];
    assert m == [["n"], ["\"a\"\"b\""]];
  }
}

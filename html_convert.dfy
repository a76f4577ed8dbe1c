/**
 * The stand-alone converter's parser and renderer
 * (src/formatters/htmlConvert.js): a CSV parser that trims the whole text
 * and every cell, and a compact table renderer with a border attribute.
 */
module HtmlConvert {
  import opened Strings
  import opened Matrices

  /** Every piece trimmed. */
  function TrimAll(pieces: seq<string>): (r: Row)
    ensures |r| == |pieces|
    ensures forall j :: 0 <= j < |r| ==> r[j] == Trim(pieces[j])
  {
    seq(|pieces|, j requires 0 <= j < |pieces| => Trim(pieces[j]))
  }

  /** The cells of one line: split on ',' and trim each piece. */
  function TrimmedCells(line: string): (r: Row)
    ensures |r| == Count(line, ',') + 1
  {
    TrimAll(Split(line, ','))
  }

  /** `parseCSV`: trim the text, split it on '\n', then split and trim every line. */
  function ParseTrimmed(content: string): (m: Matrix)
    ensures |m| == Count(Trim(content), '\n') + 1
    ensures forall i :: 0 <= i < |m| ==> m[i] == TrimmedCells(Split(Trim(content), '\n')[i])
  {
    var lines := Split(Trim(content), '\n');
    seq(|lines|, i requires 0 <= i < |lines| => TrimmedCells(lines[i]))
  }

  /** Every character of a trimmed text is a character of the text. */
  lemma TrimWithin(s: string)
    ensures forall c :: c in Trim(s) ==> c in s
  {
    var t, r := TrimStart(s), Trim(s);
    var k := |s| - |t|;
    assert r == s[k..k + |r|] by {
      assert t == s[k..] && r == TrimEnd(t) && r == t[..|r|];
    }
    forall c | c in r ensures c in s {
      var i :| 0 <= i < |r| && r[i] == c;
      assert s[k + i] == c;
    }
  }

  /** A character missing from a text is missing from each of its pieces. */
  lemma SplitKeepsAbsent(s: string, d: char, i: nat, c: char)
    requires i < |Split(s, d)| && c !in s
    ensures c !in Split(s, d)[i]
  {
  }

  /**
   * No parsed cell begins or ends with whitespace (a '\r' before a line
   * break included) and no cell holds a ',' or a '\n'.
   */
  lemma ParsedCellsClean(content: string, i: nat, j: nat)
    requires i < |ParseTrimmed(content)| && j < |ParseTrimmed(content)[i]|
    ensures var cell := ParseTrimmed(content)[i][j];
      && (|cell| == 0 || (!IsJsWhitespace(cell[0]) && !IsJsWhitespace(cell[|cell| - 1])))
      && ',' !in cell && '\n' !in cell
  {
    var line := Split(Trim(content), '\n')[i];
    var piece := Split(line, ',')[j];
    var cell := ParseTrimmed(content)[i][j];
    assert cell == TrimAll(Split(line, ','))[j] == Trim(piece);
    assert '\n' !in line;
    SplitKeepsAbsent(line, ',', j, '\n');
    TrimWithin(piece);
  }

  /** Blank lines and spaces around the text do not change the parse. */
  lemma ParseIgnoresPadding(w1: string, content: string, w2: string)
    requires AllWhitespace(w1) && AllWhitespace(w2)
    ensures ParseTrimmed(w1 + content + w2) == ParseTrimmed(content)
  {
    TrimIgnoresPadding(w1, content, w2);
  }

  /** A trailing '\r' does not change a trim. */
  lemma TrimDropsCarriageReturn(x: string)
    ensures Trim(x + "\r") == Trim(x)
  {
    assert AllWhitespace("\r") && AllWhitespace("");
    TrimIgnoresPadding("", x, "\r");
    assert "" + x + "\r" == x + "\r";
  }

  /** Replacing the last piece by one with the same trim keeps the trimmed pieces. */
  lemma TrimAllReplaceLast(p: seq<string>, x: string)
    requires |p| > 0 && Trim(x) == Trim(p[|p| - 1])
    ensures TrimAll(p[..|p| - 1] + [x]) == TrimAll(p)
  {
    var n := |p| - 1;
    var q := p[..n] + [x];
    var a, b := TrimAll(q), TrimAll(p);
    assert |a| == |b|;
    forall j | 0 <= j < |p| ensures a[j] == b[j] {
      if j < n {
        assert q[j] == p[j];
      } else {
        assert q[j] == x && a[j] == Trim(x);
      }
    }
  }

  /** A '\r' at the end of a line (a Windows line break) leaves no trace in its cells. */
  lemma CarriageReturnDropped(line: string)
    ensures TrimmedCells(line + "\r") == TrimmedCells(line)
  {
    var p := Split(line, ',');
    var n := |p| - 1;
    calc {
      TrimmedCells(line + "\r");
      TrimAll(Split(line + "\r", ','));
    == { SplitAppendChar(line, ',', '\r'); }
      TrimAll(p[..n] + [p[n] + "\r"]);
    == { TrimDropsCarriageReturn(p[n]); TrimAllReplaceLast(p, p[n] + "\r"); }
      TrimAll(p);
    }
  }

  /** One cell, verbatim between `<td>` and `</td>`. */
  function CellHtml(cell: string): string
  {
    "<td>" + cell + "</td>"
  }

  /** `row.map(cell => `<td>${cell}</td>`)`: one element per cell, in order. */
  function CellElements(row: Row): (r: seq<string>)
    ensures |r| == |row|
    ensures forall j :: 0 <= j < |row| ==> r[j] == CellHtml(row[j])
  {
    seq(|row|, j requires 0 <= j < |row| => CellHtml(row[j]))
  }

  /** The cell elements of a row joined with the empty separator. */
  function CellsHtml(row: Row): string
  {
    Join(CellElements(row), "")
  }

  /** One table row on one line, indented by two spaces. */
  function RowHtml(row: Row): string
  {
    "  <tr>" + CellsHtml(row) + "</tr>"
  }

  /** A one-cell row is `<tr><td>X</td></tr>` on one line, indented by two spaces. */
  lemma OneCellRowHtml(cell: string)
    ensures RowHtml([cell]) == "  <tr><td>" + cell + "</td></tr>"
  {
    assert CellElements([cell]) == [CellHtml(cell)];
  }

  /** The rendered rows, in matrix order. */
  function RowLines(matrix: Matrix): (r: seq<string>)
    ensures |r| == |matrix|
    ensures forall i :: 0 <= i < |matrix| ==> r[i] == RowHtml(matrix[i])
  {
    seq(|matrix|, i requires 0 <= i < |matrix| => RowHtml(matrix[i]))
  }

  /** `toHTMLTable`: the row lines joined by '\n' inside a bordered table. */
  function ToBorderedTable(matrix: Matrix): string
  {
    "<table border=\"1\">\n" + Join(RowLines(matrix), "\n") + "\n</table>"
  }

  /** Every cell appears verbatim between `<td>` and `</td>` in the table. */
  lemma BorderedTableContainsCell(matrix: Matrix, i: nat, j: nat)
    requires i < |matrix| && j < |matrix[i]|
    ensures IsInfix(CellHtml(matrix[i][j]), ToBorderedTable(matrix))
  {
    var t := CellHtml(matrix[i][j]);
    var row := matrix[i];
    var parts := CellElements(row);
    JoinContainsPart(parts, "", j);
    assert parts[j] == t;
    var cells := CellsHtml(row);
    InfixSelf(cells);
    InfixOfConcat(cells, "  <tr>", cells, "</tr>");
    InfixTransitive(t, cells, RowHtml(row));
    var lines := RowLines(matrix);
    JoinContainsPart(lines, "\n", i);
    InfixTransitive(t, lines[i], Join(lines, "\n"));
    var body := Join(lines, "\n");
    InfixSelf(body);
    InfixOfConcat(body, "<table border=\"1\">\n", body, "\n</table>");
    InfixTransitive(t, body, ToBorderedTable(matrix));
  }

  /** The empty matrix renders as the two table tags around an empty line. */
  lemma EmptyBorderedTable()
    ensures ToBorderedTable([]) == "<table border=\"1\">\n\n</table>"
  {
  }

  /** A table of one row is that row's line between the table lines. */
  lemma OneRowBorderedTable(row: Row)
    ensures ToBorderedTable([row]) == "<table border=\"1\">\n" + RowHtml(row) + "\n</table>"
  {
    assert RowLines([row]) == [RowHtml(row)];
  }
}

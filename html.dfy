/**
 * The indented HTML table renderer (src/formatters/html.js): one `<tr>`
 * block per row and one `<td>` line per cell, the cell text copied
 * verbatim, without escaping.
 */
module Html {
  import opened Strings
  import opened Matrices

  const RowIndent: string := "    "
  const CellIndent: string := "      "

  /** One cell line: the cell indentation, then the cell between `<td>` and `</td>`. */
  function CellLine(cell: string): string
  {
    CellIndent + "<td>" + cell + "</td>"
  }

  /** The cell lines of a row, in order. */
  function CellLines(row: Row): (r: seq<string>)
    ensures |r| == |row|
    ensures forall j :: 0 <= j < |row| ==> r[j] == CellLine(row[j])
  {
    seq(|row|, j requires 0 <= j < |row| => CellLine(row[j]))
  }

  /** `createRow`: the opening line, the cell lines joined by newlines, the closing line. */
  function CreateRow(row: Row): string
  {
    RowIndent + "<tr>\n" + Join(CellLines(row), "\n") + "\n" + RowIndent + "</tr>"
  }

  /** The rendered rows, in matrix order. */
  function RowBlocks(matrix: Matrix): (r: seq<string>)
    ensures |r| == |matrix|
    ensures forall i :: 0 <= i < |matrix| ==> r[i] == CreateRow(matrix[i])
  {
    seq(|matrix|, i requires 0 <= i < |matrix| => CreateRow(matrix[i]))
  }

  /** `tohtmltable`: the rows joined by newlines between `<table>` and `</table>` lines. */
  function ToHtmlTable(matrix: Matrix): string
  {
    "<table>\n" + Join(RowBlocks(matrix), "\n") + "\n</table>"
  }

  /** The empty matrix renders as the two table tags around an empty line. */
  lemma EmptyTable()
    ensures ToHtmlTable([]) == "<table>\n\n</table>"
  {
  }

  /** A row without cells still has its opening and closing lines. */
  lemma EmptyRow()
    ensures CreateRow([]) == "    <tr>\n\n    </tr>"
  {
  }

  /** Every cell appears verbatim between `<td>` and `</td>` in its row. */
  lemma RowContainsCell(row: Row, j: nat)
    requires j < |row|
    ensures IsInfix("<td>" + row[j] + "</td>", CreateRow(row))
  {
    var t := "<td>" + row[j] + "</td>";
    var lines := CellLines(row);
    InfixSelf(t);
    InfixOfConcat(t, CellIndent, t, "");
    assert CellIndent + t + "" == lines[j];
    JoinContainsPart(lines, "\n", j);
    InfixTransitive(t, lines[j], Join(lines, "\n"));
    var body := Join(lines, "\n");
    InfixSelf(body);
    InfixOfConcat(body, RowIndent + "<tr>\n", body, "\n" + RowIndent + "</tr>");
    assert RowIndent + "<tr>\n" + body + ("\n" + RowIndent + "</tr>") == CreateRow(row);
    InfixTransitive(t, body, CreateRow(row));
  }

  /**
   * The rendered table contains `<td>X</td>` for every cell X of the
   * matrix.
   */
  lemma TableContainsCell(matrix: Matrix, i: nat, j: nat)
    requires i < |matrix| && j < |matrix[i]|
    ensures IsInfix("<td>" + matrix[i][j] + "</td>", ToHtmlTable(matrix))
  {
    var t := "<td>" + matrix[i][j] + "</td>";
    var blocks := RowBlocks(matrix);
    RowContainsCell(matrix[i], j);
    JoinContainsPart(blocks, "\n", i);
    InfixTransitive(t, blocks[i], Join(blocks, "\n"));
    var body := Join(blocks, "\n");
    InfixSelf(body);
    InfixOfConcat(body, "<table>\n", body, "\n</table>");
    InfixTransitive(t, body, ToHtmlTable(matrix));
  }

  /** A table of one row is that row's block between the table lines. */
  lemma OneRowTable(row: Row)
    ensures ToHtmlTable([row]) == "<table>\n" + CreateRow(row) + "\n</table>"
  {
    assert RowBlocks([row]) == [CreateRow(row)];
  }

  /** A row of one cell is three lines: `<tr>`, the cell, `</tr>`. */
  lemma OneCellRow(cell: string)
    ensures CreateRow([cell]) == "    <tr>\n" + "      <td>" + cell + "</td>" + "\n    </tr>"
  {
    assert CellLines([cell]) == [CellLine(cell)];
  }
}

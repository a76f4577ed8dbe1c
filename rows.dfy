/**
 * Row transforms (src/transformations/rows.js). Row numbers are 1-based;
 * both transforms return a new matrix and leave their input as it was.
 */
module Rows {
  import opened Matrices

  /**
   * `rowdelete(n)`: removes exactly row n, keeping the other rows in order;
   * a number that names no row changes nothing.
   */
  function RowDelete(n: int, matrix: Matrix): (r: Matrix)
    ensures 1 <= n <= |matrix| ==> |r| == |matrix| - 1 && r == matrix[..n - 1] + matrix[n..]
    ensures !(1 <= n <= |matrix|) ==> r == matrix
  {
    RemoveAt(matrix, n - 1)
  }

  /**
   * `insertrow(n, row)`: the new row lands at 0-based position n (after row
   * n), with `splice`'s clamping of n; the rows before and after it are kept.
   */
  function InsertRow(n: int, row: Row, matrix: Matrix): (r: Matrix)
    ensures |r| == |matrix| + 1
    ensures 0 <= n <= |matrix| ==> r[n] == row && r[..n] == matrix[..n] && r[n + 1..] == matrix[n..]
  {
    Splice(matrix, n, row)
  }

  /** Deleting the row just inserted restores the matrix. */
  lemma DeleteInsertedRow(n: int, row: Row, matrix: Matrix)
    requires 0 <= n <= |matrix|
    ensures RowDelete(n + 1, InsertRow(n, row, matrix)) == matrix
  {
    var ins := InsertRow(n, row, matrix);
    assert RowDelete(n + 1, ins) == ins[..n] + ins[n + 1..];
    assert matrix == matrix[..n] + matrix[n..];
  }

  /** The row examples of the test suite. */
  lemma RowExamples()
    ensures RowDelete(2, [["A", "B", "C"], ["D", "E", "F"], ["G", "H", "I"]])
         == [["A", "B", "C"], ["G", "H", "I"]]
    ensures InsertRow(1, ["X", "Y", "Z"], [["A", "B", "C"], ["D", "E", "F"], ["G", "H", "I"]])
         == [["A", "B", "C"], ["X", "Y", "Z"], ["D", "E", "F"], ["G", "H", "I"]]
  {
    var m := [["A", "B", "C"], ["D", "E", "F"], ["G", "H", "I"]];
    assert RowDelete(2, m) == m[..1] + m[2..];
    assert InsertRow(1, ["X", "Y", "Z"], m) == m[..1] + [["X", "Y", "Z"]] + m[1..];
  }
}

/**
 * Column transforms (src/transformations/columns.js). Column numbers are
 * 1-based; each transform maps over the rows and returns a new matrix.
 */
module Columns {
  import opened Matrices

  /** The row with its cells at 0-based positions `i` and `j` exchanged. */
  function SwapCells(row: Row, i: nat, j: nat): (r: Row)
    requires i < |row| && j < |row|
    ensures |r| == |row| && r[i] == row[j] && r[j] == row[i]
    ensures forall k :: 0 <= k < |row| && k != i && k != j ==> r[k] == row[k]
  {
    row[i := row[j]][j := row[i]]
  }

  /**
   * The per-row step of `swap` as the source performs it: copy the row into
   * a fresh array and exchange the two cells in place.
   */
  method SwapInCopy(row: Row, n: int, m: int) returns (newRow: Row)
    requires 1 <= n <= |row| && 1 <= m <= |row|
    ensures newRow == SwapCells(row, n - 1, m - 1)
  {
    var a := new string[|row|](k requires 0 <= k < |row| => row[k]);
    var x, y := a[m - 1], a[n - 1];
    a[n - 1] := x;
    a[m - 1] := y;
    newRow := a[..];
  }

  /** Both column numbers name a cell of every row. */
  predicate SwapInRange(n: int, m: int, matrix: Matrix)
  {
    forall k :: 0 <= k < |matrix| ==> 1 <= n <= |matrix[k]| && 1 <= m <= |matrix[k]|
  }

  /** `swap(n, m)`: in every row, columns n and m change places. */
  function Swap(n: int, m: int, matrix: Matrix): (r: Matrix)
    requires SwapInRange(n, m, matrix)
    ensures |r| == |matrix|
    ensures forall k :: 0 <= k < |r| ==>
      |r[k]| == |matrix[k]| && r[k][n - 1] == matrix[k][m - 1] && r[k][m - 1] == matrix[k][n - 1]
    ensures forall k, c :: 0 <= k < |r| && 0 <= c < |r[k]| && c != n - 1 && c != m - 1 ==>
      r[k][c] == matrix[k][c]
  {
    seq(|matrix|, k requires 0 <= k < |matrix| => SwapCells(matrix[k], n - 1, m - 1))
  }

  /** The order of the two column numbers does not matter. */
  lemma SwapSymmetric(n: int, m: int, matrix: Matrix)
    requires SwapInRange(n, m, matrix)
    ensures SwapInRange(m, n, matrix)
    ensures Swap(n, m, matrix) == Swap(m, n, matrix)
  {
    assert SwapInRange(m, n, matrix);
    var a, b := Swap(n, m, matrix), Swap(m, n, matrix);
    forall k | 0 <= k < |matrix| ensures a[k] == b[k] {
      assert |a[k]| == |b[k]|;
      forall c | 0 <= c < |a[k]| ensures a[k][c] == b[k][c] {}
    }
  }

  /** Swapping the same two columns twice restores the matrix. */
  lemma SwapInvolution(n: int, m: int, matrix: Matrix)
    requires SwapInRange(n, m, matrix)
    ensures SwapInRange(n, m, Swap(n, m, matrix))
    ensures Swap(n, m, Swap(n, m, matrix)) == matrix
  {
    var once := Swap(n, m, matrix);
    forall k | 0 <= k < |once| ensures 1 <= n <= |once[k]| && 1 <= m <= |once[k]| {
      assert 1 <= n <= |matrix[k]| && 1 <= m <= |matrix[k]|;
      assert |once[k]| == |matrix[k]|;
    }
    assert SwapInRange(n, m, once);
    var twice := Swap(n, m, once);
    forall k | 0 <= k < |matrix| ensures twice[k] == matrix[k] {
      assert once[k] == SwapCells(matrix[k], n - 1, m - 1);
      assert twice[k] == SwapCells(once[k], n - 1, m - 1);
      forall c | 0 <= c < |matrix[k]| ensures twice[k][c] == matrix[k][c] {}
    }
  }

  /** Swapping a column with itself changes nothing. */
  lemma SwapSameColumn(n: int, matrix: Matrix)
    requires SwapInRange(n, n, matrix)
    ensures Swap(n, n, matrix) == matrix
  {
    var r := Swap(n, n, matrix);
    forall k | 0 <= k < |matrix| ensures r[k] == matrix[k] {
      assert |r[k]| == |matrix[k]|;
      forall c | 0 <= c < |matrix[k]| ensures r[k][c] == matrix[k][c] {}
    }
  }

  /**
   * `columndelete(n)`: every row that has an n-th cell loses exactly that
   * cell; shorter rows are left as they are.
   */
  function ColumnDelete(n: int, matrix: Matrix): (r: Matrix)
    ensures |r| == |matrix|
    ensures forall k :: 0 <= k < |r| ==>
      r[k] == if 1 <= n <= |matrix[k]| then matrix[k][..n - 1] + matrix[k][n..] else matrix[k]
  {
    seq(|matrix|, k requires 0 <= k < |matrix| => RemoveAt(matrix[k], n - 1))
  }

  /**
   * `insertcolumn(n, column)`: row k receives `column[k] || ''` at 0-based
   * position n (after the n-th cell), with `splice`'s clamping of n; every
   * row grows by one cell and keeps its other cells in order.
   */
  function InsertColumn(n: int, column: seq<string>, matrix: Matrix): (r: Matrix)
    ensures |r| == |matrix|
    ensures forall k :: 0 <= k < |r| ==>
      var p := SplicePos(n, |matrix[k]|);
      && |r[k]| == |matrix[k]| + 1
      && r[k][p] == CellOr(column, k)
      && r[k][..p] == matrix[k][..p]
      && r[k][p + 1..] == matrix[k][p..]
  {
    seq(|matrix|, k requires 0 <= k < |matrix| => Splice(matrix[k], n, CellOr(column, k)))
  }

  /**
   * Deleting the column just inserted restores the matrix, when the insert
   * position lies within every row.
   */
  lemma DeleteInsertedColumn(n: int, column: seq<string>, matrix: Matrix)
    requires 0 <= n
    requires forall k :: 0 <= k < |matrix| ==> n <= |matrix[k]|
    ensures ColumnDelete(n + 1, InsertColumn(n, column, matrix)) == matrix
  {
    var ins := InsertColumn(n, column, matrix);
    var del := ColumnDelete(n + 1, ins);
    forall k | 0 <= k < |matrix| ensures del[k] == matrix[k] {
      assert del[k] == ins[k][..n] + ins[k][n + 1..];
      assert matrix[k] == matrix[k][..n] + matrix[k][n..];
    }
  }

  /** Test-suite example: swap(1, 3) exchanges the outer columns. */
  lemma SwapExample()
    ensures Swap(1, 3, [["A", "B", "C"], ["D", "E", "F"]]) == [["C", "B", "A"], ["F", "E", "D"]]
  {
    var s := Swap(1, 3, [["A", "B", "C"], ["D", "E", "F"]]);
    assert s[0] == ["C", "B", "A"] && s[1] == ["F", "E", "D"];
  }

  /** Test-suite example: columndelete(2) drops the middle column. */
  lemma ColumnDeleteExample()
    ensures ColumnDelete(2, [["A", "B", "C"], ["D", "E", "F"]]) == [["A", "C"], ["D", "F"]]
  {
    var m := [["A", "B", "C"], ["D", "E", "F"]];
    var d := ColumnDelete(2, m);
    assert m[0][..1] == ["A"] && m[0][2..] == ["C"];
    assert m[1][..1] == ["D"] && m[1][2..] == ["F"];
    assert d[0] == ["A", "C"] && d[1] == ["D", "F"];
  }

  /** Test-suite example: insertcolumn(1, [X, Y]) puts the new cells second. */
  lemma InsertColumnExample()
    ensures InsertColumn(1, ["X", "Y"], [["A", "B", "C"], ["D", "E", "F"]])
         == [["A", "X", "B", "C"], ["D", "Y", "E", "F"]]
  {
    var m := [["A", "B", "C"], ["D", "E", "F"]];
    var i := InsertColumn(1, ["X", "Y"], m);
    assert m[0][..1] == ["A"] && m[0][1..] == ["B", "C"];
    assert m[1][..1] == ["D"] && m[1][1..] == ["E", "F"];
    assert i[0] == m[0][..1] + ["X"] + m[0][1..];
    assert i[1] == m[1][..1] + ["Y"] + m[1][1..];
    assert i[0] == ["A", "X", "B", "C"] && i[1] == ["D", "Y", "E", "F"];
  }
}

/**
 * Transposition (src/transformations/transpose.js): the width of the result
 * is the longest input row, and missing cells of shorter rows read as "".
 */
module Transposition {
  import opened Matrices

  /**
   * `rowstocolumns`: output row k holds cell k of every input row, in row
   * order, with "" where an input row is too short.
   */
  function RowsToColumns(matrix: Matrix): (r: Matrix)
    requires |matrix| > 0
    ensures |r| == MaxWidth(matrix)
    ensures Rectangular(r, |matrix|)
    ensures forall k, i :: 0 <= k < |r| && 0 <= i < |matrix| ==> r[k][i] == CellOr(matrix[i], k)
  {
    seq(MaxWidth(matrix), k => seq(|matrix|, i requires 0 <= i < |matrix| => CellOr(matrix[i], k)))
  }

  /** `columnstorows`: the same function as `rowstocolumns`. */
  function ColumnsToRows(matrix: Matrix): (r: Matrix)
    requires |matrix| > 0
    ensures r == RowsToColumns(matrix)
  {
    RowsToColumns(matrix)
  }

  /** `row` right-padded with "" to `w` cells. */
  function PadRight(row: Row, w: nat): (r: Row)
    requires |row| <= w
    ensures |r| == w && r[..|row|] == row
    ensures forall c :: |row| <= c < w ==> r[c] == ""
  {
    row + seq(w - |row|, _ => "")
  }

  lemma MaxWidthOfRectangular(m: Matrix, w: nat)
    requires |m| > 0 && Rectangular(m, w)
    ensures MaxWidth(m) == w
  {
    var i :| 0 <= i < |m| && |m[i]| == MaxWidth(m);
  }

  /** Cell k of a padded row is the row's cell k, or "" past its end. */
  lemma PadRightAt(row: Row, w: nat, k: nat)
    requires |row| <= w && k < w
    ensures PadRight(row, w)[k] == CellOr(row, k)
  {
    if k < |row| {
      assert PadRight(row, w)[k] == PadRight(row, w)[..|row|][k];
    }
  }

  /**
   * Transposing twice pads every row with "" to the width of the longest
   * row (when that width is not zero).
   */
  lemma TransposeTwicePads(matrix: Matrix)
    requires |matrix| > 0 && MaxWidth(matrix) > 0
    ensures |RowsToColumns(matrix)| > 0
    ensures RowsToColumns(RowsToColumns(matrix))
         == seq(|matrix|, i requires 0 <= i < |matrix| => PadRight(matrix[i], MaxWidth(matrix)))
  {
    var w := MaxWidth(matrix);
    var t := RowsToColumns(matrix);
    MaxWidthOfRectangular(t, |matrix|);
    var tt := RowsToColumns(t);
    var padded := seq(|matrix|, i requires 0 <= i < |matrix| => PadRight(matrix[i], w));
    assert |tt| == |matrix| == |padded|;
    forall i | 0 <= i < |matrix| ensures tt[i] == padded[i] {
      assert |tt[i]| == w == |padded[i]|;
      forall k | 0 <= k < w ensures tt[i][k] == padded[i][k] {
        assert tt[i][k] == CellOr(t[k], i);
        assert t[k][i] == CellOr(matrix[i], k);
        PadRightAt(matrix[i], w, k);
      }
    }
  }

  /** On a rectangular matrix of non-zero width, transposing twice is the identity. */
  lemma TransposeTwiceRectangular(matrix: Matrix, w: nat)
    requires |matrix| > 0 && w > 0 && Rectangular(matrix, w)
    ensures |RowsToColumns(matrix)| > 0
    ensures RowsToColumns(RowsToColumns(matrix)) == matrix
  {
    MaxWidthOfRectangular(matrix, w);
    TransposeTwicePads(matrix);
    var padded := seq(|matrix|, i requires 0 <= i < |matrix| => PadRight(matrix[i], w));
    forall i | 0 <= i < |matrix| ensures padded[i] == matrix[i] {
      assert padded[i] == padded[i][..|matrix[i]|];
    }
  }

  /**
   * One round trip makes a ragged matrix rectangular; from then on a round
   * trip changes nothing.
   */
  lemma SecondRoundTripInvertible(matrix: Matrix)
    requires |matrix| > 0 && MaxWidth(matrix) > 0
    ensures |RowsToColumns(matrix)| > 0
    ensures |RowsToColumns(RowsToColumns(matrix))| > 0
    ensures |RowsToColumns(RowsToColumns(RowsToColumns(matrix)))| > 0
    ensures RowsToColumns(RowsToColumns(RowsToColumns(RowsToColumns(matrix))))
         == RowsToColumns(RowsToColumns(matrix))
  {
    var w := MaxWidth(matrix);
    TransposeTwicePads(matrix);
    var tt := RowsToColumns(RowsToColumns(matrix));
    assert Rectangular(tt, w);
    TransposeTwiceRectangular(tt, w);
  }

  /** A three-by-two matrix transposes to the two-by-three one, and back. */
  lemma TransposeThreeByTwo(a: string, b: string, c: string, d: string, e: string, f: string)
    ensures RowsToColumns([[a, b], [c, d], [e, f]]) == [[a, c, e], [b, d, f]]
    ensures ColumnsToRows(RowsToColumns([[a, b], [c, d], [e, f]])) == [[a, b], [c, d], [e, f]]
  {
    var m := [[a, b], [c, d], [e, f]];
    MaxWidthOfRectangular(m, 2);
    var t := RowsToColumns(m);
    assert |t| == 2 && |t[0]| == 3 && |t[1]| == 3;
    assert t[0] == [a, c, e] && t[1] == [b, d, f];
    assert t == [t[0], t[1]];
    TransposeTwiceRectangular(m, 2);
  }

  /** The transposition examples of the test suite. */
  lemma TransposeExample()
    ensures RowsToColumns([["A", "B"], ["C", "D"], ["E", "F"]]) == [["A", "C", "E"], ["B", "D", "F"]]
    ensures ColumnsToRows(RowsToColumns([["A", "B"], ["C", "D"], ["E", "F"]]))
         == [["A", "B"], ["C", "D"], ["E", "F"]]
  {
    TransposeThreeByTwo("A", "B", "C", "D", "E", "F");
  }
}

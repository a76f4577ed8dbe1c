/**
 * Header-preserving sort (src/transformations/sort.js). Row 0 stays first;
 * the other rows are sorted in place by the cell in column `col` (1-based),
 * ascending for direction "asc" and descending for any other direction.
 * Keys are compared with the string `<`; `Array.prototype.sort` is stable,
 * and a stable sort has exactly one possible result, which insertion sort
 * computes.
 */
module Sorting {
  import opened Strings
  import opened Matrices

  /** The sort key of a row: its cell at the 0-based column `index`. */
  function Key(row: Row, index: nat): string
  {
    CellOr(row, index)
  }

  /** The comparator returns a negative number: `a` goes strictly before `b`. */
  predicate Before(a: Row, b: Row, index: nat, ascending: bool)
  {
    if ascending then StrLess(Key(a, index), Key(b, index))
    else StrLess(Key(b, index), Key(a, index))
  }

  /** No row goes strictly before a row that precedes it. */
  predicate Sorted(s: seq<Row>, index: nat, ascending: bool)
  {
    forall i, j :: 0 <= i < j < |s| ==> !Before(s[j], s[i], index, ascending)
  }

  /** The rows of `s` whose key is `v`, in their order in `s`. */
  function KeyFilter(s: seq<Row>, index: nat, v: string): seq<Row>
    decreases |s|
  {
    if |s| == 0 then []
    else (if Key(s[0], index) == v then [s[0]] else []) + KeyFilter(s[1..], index, v)
  }

  /** For every key, `out` lists the rows with that key in the order `input` does. */
  ghost predicate Stable(out: seq<Row>, input: seq<Row>, index: nat)
  {
    forall v :: KeyFilter(out, index, v) == KeyFilter(input, index, v)
  }

  /** `x` placed after every row of `sorted` that it does not go strictly before. */
  function Insert(sorted: seq<Row>, x: Row, index: nat, ascending: bool): (r: seq<Row>)
    ensures |r| == |sorted| + 1
    decreases |sorted|
  {
    if |sorted| == 0 || !Before(x, sorted[|sorted| - 1], index, ascending) then sorted + [x]
    else
      var front := sorted[..|sorted| - 1];
      assert sorted == front + [sorted[|sorted| - 1]];
      Insert(front, x, index, ascending) + [sorted[|sorted| - 1]]
  }

  /** Stable insertion sort: each row in turn inserted into the sorted prefix. */
  function InsertionSort(rows: seq<Row>, index: nat, ascending: bool): (r: seq<Row>)
    ensures |r| == |rows|
    decreases |rows|
  {
    if |rows| == 0 then []
    else
      assert rows == rows[..|rows| - 1] + [rows[|rows| - 1]];
      Insert(InsertionSort(rows[..|rows| - 1], index, ascending), rows[|rows| - 1], index, ascending)
  }

  /** Inserting adds exactly `x` to the rows. */
  lemma {:induction false} InsertMultiset(sorted: seq<Row>, x: Row, index: nat, ascending: bool)
    ensures multiset(Insert(sorted, x, index, ascending)) == multiset(sorted) + multiset{x}
    decreases |sorted|
  {
    if |sorted| > 0 && Before(x, sorted[|sorted| - 1], index, ascending) {
      var front := sorted[..|sorted| - 1];
      assert sorted == front + [sorted[|sorted| - 1]];
      InsertMultiset(front, x, index, ascending);
    }
  }

  /** Insertion sort returns a permutation of its input. */
  lemma {:induction false} InsertionSortMultiset(rows: seq<Row>, index: nat, ascending: bool)
    ensures multiset(InsertionSort(rows, index, ascending)) == multiset(rows)
    decreases |rows|
  {
    if |rows| > 0 {
      var front := rows[..|rows| - 1];
      assert rows == front + [rows[|rows| - 1]];
      InsertionSortMultiset(front, index, ascending);
      InsertMultiset(InsertionSort(front, index, ascending), rows[|rows| - 1], index, ascending);
    }
  }

  // ----- the comparator is a strict weak order -----

  lemma NotLessTransitive(a: string, b: string, c: string)
    requires !StrLess(b, a) && !StrLess(c, b)
    ensures !StrLess(c, a)
  {
    if StrLess(c, a) {
      if a == b {
      } else {
        StrLessTotal(a, b);
        StrLessTransitive(c, a, b);
      }
    }
  }

  lemma NotBeforeTransitive(a: Row, b: Row, c: Row, index: nat, ascending: bool)
    requires !Before(b, a, index, ascending) && !Before(c, b, index, ascending)
    ensures !Before(c, a, index, ascending)
  {
    var ka, kb, kc := Key(a, index), Key(b, index), Key(c, index);
    if ascending {
      NotLessTransitive(ka, kb, kc);
    } else {
      NotLessTransitive(kc, kb, ka);
    }
  }

  lemma BeforeAsymmetric(a: Row, b: Row, index: nat, ascending: bool)
    requires Before(a, b, index, ascending)
    ensures !Before(b, a, index, ascending)
    ensures Key(a, index) != Key(b, index)
  {
    var ka, kb := Key(a, index), Key(b, index);
    if ascending {
      StrLessAsymmetric(ka, kb);
      if ka == kb { StrLessIrreflexive(ka); }
    } else {
      StrLessAsymmetric(kb, ka);
      if ka == kb { StrLessIrreflexive(ka); }
    }
  }

  // ----- sortedness -----

  /** A row that no earlier row follows strictly may be appended to a sorted sequence. */
  lemma AppendKeepsSorted(s: seq<Row>, x: Row, index: nat, ascending: bool)
    requires Sorted(s, index, ascending)
    requires forall i :: 0 <= i < |s| ==> !Before(x, s[i], index, ascending)
    ensures Sorted(s + [x], index, ascending)
  {
    var r := s + [x];
    forall i, j | 0 <= i < j < |r| ensures !Before(r[j], r[i], index, ascending) {
      assert r[i] == s[i];
      if j < |s| { assert r[j] == s[j]; }
    }
  }

  lemma {:induction false} InsertKeepsSorted(s: seq<Row>, x: Row, index: nat, ascending: bool)
    requires Sorted(s, index, ascending)
    ensures Sorted(Insert(s, x, index, ascending), index, ascending)
    decreases |s|
  {
    if |s| == 0 || !Before(x, s[|s| - 1], index, ascending) {
      forall i | 0 <= i < |s| ensures !Before(x, s[i], index, ascending) {
        if i < |s| - 1 {
          NotBeforeTransitive(s[i], s[|s| - 1], x, index, ascending);
        }
      }
      AppendKeepsSorted(s, x, index, ascending);
    } else {
      var last := s[|s| - 1];
      var front := s[..|s| - 1];
      assert Sorted(front, index, ascending) by {
        forall i, j | 0 <= i < j < |front| ensures !Before(front[j], front[i], index, ascending) {
          assert front[i] == s[i] && front[j] == s[j];
        }
      }
      InsertKeepsSorted(front, x, index, ascending);
      var head := Insert(front, x, index, ascending);
      BeforeAsymmetric(x, last, index, ascending);
      InsertMultiset(front, x, index, ascending);
      forall i | 0 <= i < |head| ensures !Before(last, head[i], index, ascending) {
        assert head[i] in multiset(front) + multiset{x};
        if head[i] != x {
          assert head[i] in front;
          var k :| 0 <= k < |front| && front[k] == head[i];
          assert s[k] == head[i];
        }
      }
      AppendKeepsSorted(head, last, index, ascending);
    }
  }

  /** Insertion sort's result is sorted. */
  lemma {:induction false} InsertionSortSorted(rows: seq<Row>, index: nat, ascending: bool)
    ensures Sorted(InsertionSort(rows, index, ascending), index, ascending)
    decreases |rows|
  {
    if |rows| > 0 {
      InsertionSortSorted(rows[..|rows| - 1], index, ascending);
      InsertKeepsSorted(InsertionSort(rows[..|rows| - 1], index, ascending), rows[|rows| - 1], index, ascending);
    }
  }

  /**
   * Sorted rows are in non-decreasing key order for "asc" and in
   * non-increasing key order otherwise.
   */
  lemma SortedIsMonotone(s: seq<Row>, index: nat, ascending: bool, i: nat)
    requires Sorted(s, index, ascending) && i + 1 < |s|
    ensures ascending ==> Key(s[i], index) == Key(s[i + 1], index) || StrLess(Key(s[i], index), Key(s[i + 1], index))
    ensures !ascending ==> Key(s[i], index) == Key(s[i + 1], index) || StrLess(Key(s[i + 1], index), Key(s[i], index))
  {
    assert !Before(s[i + 1], s[i], index, ascending);
    if Key(s[i], index) != Key(s[i + 1], index) {
      StrLessTotal(Key(s[i], index), Key(s[i + 1], index));
    }
  }

  // ----- stability -----

  lemma {:induction false} KeyFilterAppend(a: seq<Row>, b: seq<Row>, index: nat, v: string)
    ensures KeyFilter(a + b, index, v) == KeyFilter(a, index, v) + KeyFilter(b, index, v)
    decreases |a|
  {
    if |a| == 0 {
      assert a + b == b;
    } else {
      assert (a + b)[1..] == a[1..] + b;
      KeyFilterAppend(a[1..], b, index, v);
    }
  }

  lemma {:induction false} InsertStable(s: seq<Row>, x: Row, index: nat, ascending: bool, v: string)
    ensures KeyFilter(Insert(s, x, index, ascending), index, v) == KeyFilter(s, index, v) + KeyFilter([x], index, v)
    decreases |s|
  {
    if |s| == 0 || !Before(x, s[|s| - 1], index, ascending) {
      KeyFilterAppend(s, [x], index, v);
    } else {
      var last := s[|s| - 1];
      var front := s[..|s| - 1];
      assert s == front + [last];
      InsertStable(front, x, index, ascending, v);
      KeyFilterAppend(Insert(front, x, index, ascending), [last], index, v);
      KeyFilterAppend(front, [last], index, v);
      BeforeAsymmetric(x, last, index, ascending);
      assert KeyFilter([x], index, v) == [] || KeyFilter([last], index, v) == [];
    }
  }

  /** Rows with equal keys keep their relative order. */
  lemma {:induction false} InsertionSortStable(rows: seq<Row>, index: nat, ascending: bool, v: string)
    ensures KeyFilter(InsertionSort(rows, index, ascending), index, v) == KeyFilter(rows, index, v)
    decreases |rows|
  {
    if |rows| > 0 {
      var front, last := rows[..|rows| - 1], rows[|rows| - 1];
      InsertionSortStable(front, index, ascending, v);
      InsertStable(InsertionSort(front, index, ascending), last, index, ascending, v);
      assert rows == front + [last];
      KeyFilterAppend(front, [last], index, v);
    }
  }

  // ----- the in-place sort -----

  /**
   * `Insert` places `x` at position `j` when `x` goes strictly before every
   * row from `j` on but not before the row at `j - 1`.
   */
  lemma {:induction false} InsertPosition(p: seq<Row>, x: Row, j: nat, index: nat, ascending: bool)
    requires j <= |p| && (j == 0 || !Before(x, p[j - 1], index, ascending))
    requires forall k :: j <= k < |p| ==> Before(x, p[k], index, ascending)
    ensures Insert(p, x, index, ascending) == p[..j] + [x] + p[j..]
    decreases |p|
  {
    if j == |p| {
      assert p[..j] == p && p[j..] == [];
    } else {
      var front := p[..|p| - 1];
      assert front[..j] == p[..j];
      InsertPosition(front, x, j, index, ascending);
      assert p[j..] == front[j..] + [p[|p| - 1]];
    }
  }

  /** The next step of the outer loop: sorting one more row is inserting it. */
  lemma InsertionSortPrefix(input: seq<Row>, i: nat, index: nat, ascending: bool)
    requires i < |input|
    ensures InsertionSort(input[..i + 1], index, ascending)
         == Insert(InsertionSort(input[..i], index, ascending), input[i], index, ascending)
  {
    assert input[..i + 1][..i] == input[..i];
  }

  /** A prefix shifted one place right from `j` on, with `x` in the gap. */
  lemma PlacedIs(b: seq<Row>, p: seq<Row>, x: Row, j: nat)
    requires j <= |p| && |b| == |p| + 1 && b[j] == x
    requires forall k :: 0 <= k < j ==> b[k] == p[k]
    requires forall k :: j < k < |b| ==> b[k] == p[k - 1]
    ensures b == p[..j] + [x] + p[j..]
  {
    var c := p[..j] + [x] + p[j..];
    forall k | 0 <= k < |b| ensures b[k] == c[k] {
      if k < j {
        assert c[k] == p[..j][k];
      } else if j < k {
        assert c[k] == p[j..][k - j - 1];
      }
    }
  }

  /**
   * One pass of the sort: `a[i]` moves left past every row of the sorted
   * prefix it goes strictly before, and the rows it passes shift right.
   */
  method InsertAt(a: array<Row>, i: nat, index: nat, ascending: bool)
    requires i < a.Length
    modifies a
    ensures a[..i + 1] == Insert(old(a[..i]), old(a[i]), index, ascending)
    ensures a[i + 1..] == old(a[i + 1..])
  {
    var x := a[i];
    ghost var p := a[..i];
    ghost var rest := a[i + 1..];
    var j := i;
    while j > 0 && Before(x, a[j - 1], index, ascending)
      invariant 0 <= j <= i
      invariant forall k :: 0 <= k < j ==> a[k] == p[k]
      invariant forall k :: j < k <= i ==> a[k] == p[k - 1]
      invariant a[i + 1..] == rest
      invariant forall k :: j <= k < i ==> Before(x, p[k], index, ascending)
    {
      a[j] := a[j - 1];
      j := j - 1;
    }
    a[j] := x;
    InsertPosition(p, x, j, index, ascending);
    PlacedIs(a[..i + 1], p, x, j);
  }

  /** `rows.sort(comparator)`: sorts the array in place. */
  method SortRows(a: array<Row>, index: nat, ascending: bool)
    modifies a
    ensures a[..] == InsertionSort(old(a[..]), index, ascending)
  {
    ghost var input := a[..];
    var i := 0;
    while i < a.Length
      invariant 0 <= i <= a.Length
      invariant a[..i] == InsertionSort(input[..i], index, ascending)
      invariant a[i..] == input[i..]
    {
      assert a[i] == input[i];
      InsertAt(a, i, index, ascending);
      InsertionSortPrefix(input, i, index, ascending);
      assert input[i..][1..] == input[i + 1..];
      i := i + 1;
    }
    assert a[..] == a[..a.Length] && input == input[..a.Length];
  }

  /** The sort needs a 1-based `col` that every data row has a cell for. */
  predicate KeysPresent(col: int, matrix: Matrix)
  {
    1 <= col && forall i :: 1 <= i < |matrix| ==> col <= |matrix[i]|
  }

  /**
   * What `sortByColumn(col, direction)` returns: a matrix of at most one row
   * as it is, otherwise the header followed by the stably sorted data rows.
   */
  function SortedByColumn(col: int, direction: string, matrix: Matrix): Matrix
    requires |matrix| > 1 ==> KeysPresent(col, matrix)
  {
    if |matrix| <= 1 then matrix
    else [matrix[0]] + InsertionSort(matrix[1..], col - 1, direction == "asc")
  }

  /**
   * The result keeps the header first, is a permutation of the input, puts
   * the data rows in order of their keys and keeps rows with equal keys in
   * their input order.
   */
  lemma SortedByColumnProperties(col: int, direction: string, matrix: Matrix)
    requires |matrix| > 1 ==> KeysPresent(col, matrix)
    ensures var r := SortedByColumn(col, direction, matrix);
      && (|matrix| <= 1 ==> r == matrix)
      && |r| == |matrix| && multiset(r) == multiset(matrix)
      && (|matrix| > 1 ==>
        && r[0] == matrix[0]
        && Sorted(r[1..], col - 1, direction == "asc")
        && Stable(r[1..], matrix[1..], col - 1))
  {
    if |matrix| > 1 {
      var r := SortedByColumn(col, direction, matrix);
      var index, ascending := col - 1, direction == "asc";
      assert r[1..] == InsertionSort(matrix[1..], index, ascending);
      assert matrix == [matrix[0]] + matrix[1..];
      InsertionSortSorted(matrix[1..], index, ascending);
      InsertionSortMultiset(matrix[1..], index, ascending);
      forall v ensures KeyFilter(r[1..], index, v) == KeyFilter(matrix[1..], index, v) {
        InsertionSortStable(matrix[1..], index, ascending, v);
      }
    }
  }

  /**
   * `sortByColumn(col, direction)`: splits off the header, sorts a copy of
   * the data rows in place and puts the header back in front.
   */
  method SortByColumn(col: int, direction: string, matrix: Matrix) returns (r: Matrix)
    requires |matrix| > 1 ==> KeysPresent(col, matrix)
    ensures r == SortedByColumn(col, direction, matrix)
  {
    if |matrix| <= 1 {
      return matrix;
    }
    var header, data := matrix[0], matrix[1..];
    var index: nat, ascending := col - 1, direction == "asc";
    var rows := new Row[|data|](k requires 0 <= k < |data| => data[k]);
    assert rows[..] == data;
    SortRows(rows, index, ascending);
    assert rows[..] == InsertionSort(data, index, ascending);
    r := [header] + rows[..];
  }
}

/**
 * The matrix representation shared by every transform (`string[][]`), and
 * the JavaScript array operations the transforms are built from: reading a
 * cell with `|| ''`, filtering out one index, and `splice` of one element.
 */
module Matrices {

  type Row = seq<string>
  type Matrix = seq<Row>

  /** `row[i] || ''`: the cell at `i`, or "" when the row has no cell there. */
  function CellOr(row: seq<string>, i: int): string
  {
    if 0 <= i < |row| then row[i] else ""
  }

  /**
   * `xs.filter((_, index) => index !== i)`: keeps every element whose
   * position is not `i`; an `i` outside the sequence keeps them all.
   */
  function RemoveAt<T>(xs: seq<T>, i: int): (r: seq<T>)
    ensures 0 <= i < |xs| ==> |r| == |xs| - 1 && r == xs[..i] + xs[i + 1..]
    ensures !(0 <= i < |xs|) ==> r == xs
    decreases |xs|
  {
    if |xs| == 0 then []
    else (if i == 0 then [] else [xs[0]]) + RemoveAt(xs[1..], i - 1)
  }

  /** Element k of what remains is element k before position i and element k + 1 from i on. */
  lemma RemoveAtIndex<T>(xs: seq<T>, i: nat, k: nat)
    requires i < |xs| && k < |xs| - 1
    ensures |RemoveAt(xs, i)| == |xs| - 1
    ensures RemoveAt(xs, i)[k] == xs[if k < i then k else k + 1]
  {
  }

  /**
   * Where `array.splice(start, 0, x)` inserts: a negative start counts back
   * from the end, and the position is clamped to `0..len`.
   */
  function SplicePos(start: int, len: nat): (p: nat)
    ensures p <= len
    ensures 0 <= start <= len ==> p == start
  {
    if start < 0 then (if len + start < 0 then 0 else len + start)
    else if start < len then start else len
  }

  /** `copy.splice(start, 0, x)` on a fresh copy of `xs`, as a value. */
  function Splice<T>(xs: seq<T>, start: int, x: T): (r: seq<T>)
    ensures |r| == |xs| + 1
    ensures r[SplicePos(start, |xs|)] == x
    ensures r[..SplicePos(start, |xs|)] == xs[..SplicePos(start, |xs|)]
    ensures r[SplicePos(start, |xs|) + 1..] == xs[SplicePos(start, |xs|)..]
  {
    var p := SplicePos(start, |xs|);
    xs[..p] + [x] + xs[p..]
  }

  /** `Math.max(...matrix.map(row => row.length))` for a non-empty matrix. */
  function MaxWidth(m: Matrix): (w: nat)
    requires |m| > 0
    ensures forall i :: 0 <= i < |m| ==> |m[i]| <= w
    ensures exists i :: 0 <= i < |m| && |m[i]| == w
  {
    if |m| == 1 then |m[0]|
    else
      var w := MaxWidth(m[1..]);
      assert forall i :: 1 <= i < |m| ==> |m[i]| == |m[1..][i - 1]|;
      if |m[0]| >= w then |m[0]| else w
  }

  /** Every row of `m` has exactly `w` cells. */
  predicate Rectangular(m: Matrix, w: nat)
  {
    forall i :: 0 <= i < |m| ==> |m[i]| == w
  }

  /** No element occurs twice. */
  predicate Distinct<T(==)>(xs: seq<T>)
  {
    forall i, j :: 0 <= i < j < |xs| ==> xs[i] != xs[j]
  }

  /** `xs.indexOf(x)`: the first position holding `x`, or -1. */
  function IndexOf<T(==)>(xs: seq<T>, x: T): (i: int)
    ensures -1 <= i < |xs|
    ensures i == -1 <==> x !in xs
    ensures 0 <= i ==> xs[i] == x && forall k :: 0 <= k < i ==> xs[k] != x
    decreases |xs|
  {
    if |xs| == 0 then -1
    else if xs[0] == x then 0
    else
      var j := IndexOf(xs[1..], x);
      assert forall y :: y in xs[1..] ==> y in xs;
      if j < 0 then -1 else j + 1
  }

  /** In a sequence without repeats, element n - 1 is not among the first n - 1. */
  lemma DistinctLast<T>(xs: seq<T>, n: nat)
    requires Distinct(xs) && 0 < n <= |xs|
    ensures xs[n - 1] !in xs[..n - 1]
  {
  }

  /** The first occurrence is the only index with no earlier occurrence. */
  lemma IndexOfUnique<T>(xs: seq<T>, x: T, i: int)
    requires 0 <= i < |xs| && xs[i] == x
    requires forall k :: 0 <= k < i ==> xs[k] != x
    ensures IndexOf(xs, x) == i
  {
  }

  /** Appending a different element does not move the first occurrence. */
  lemma IndexOfAppend<T>(xs: seq<T>, y: T, x: T)
    requires x != y
    ensures IndexOf(xs + [y], x) == IndexOf(xs, x)
  {
    var i := IndexOf(xs, x);
    if 0 <= i {
      assert (xs + [y])[i] == xs[i];
      IndexOfUnique(xs + [y], x, i);
    } else {
      assert x !in xs + [y];
    }
  }

  /** In a sequence without repetitions, the position of `xs[k]` is `k`. */
  lemma IndexOfDistinct<T>(xs: seq<T>, k: nat)
    requires Distinct(xs) && k < |xs|
    ensures IndexOf(xs, xs[k]) == k
  {
  }

  /** `xs.filter(y => y !== x)`: every element other than `x`, in order. */
  function Remove<T(==)>(xs: seq<T>, x: T): (r: seq<T>)
    ensures x !in r
    ensures forall i :: 0 <= i < |r| ==> r[i] in xs
    ensures forall i :: 0 <= i < |xs| && xs[i] != x ==> xs[i] in r
    ensures x !in xs ==> r == xs
    decreases |xs|
  {
    if |xs| == 0 then []
    else (if xs[0] == x then [] else [xs[0]]) + Remove(xs[1..], x)
  }
}

/**
 * `pipe` (src/utils/functional.js): the functions applied one after the
 * other, left to right, as `fns.reduce((acc, fn) => fn(acc), value)`.
 * The stages of one pipeline share one value type.
 */
module Functional {

  /** `pipe(...fns)(value)`: the left fold of application over `fns`. */
  function Pipe<T>(fns: seq<T -> T>, value: T): T
    decreases |fns|
  {
    if |fns| == 0 then value else Pipe(fns[1..], fns[0](value))
  }

  /** `pipe()` is the identity. */
  lemma PipeEmpty<T>(value: T)
    ensures Pipe([], value) == value
  {
  }

  /** `pipe(f)` is `f`. */
  lemma PipeSingle<T>(f: T -> T, value: T)
    ensures Pipe([f], value) == f(value)
  {
    assert [f][1..] == [];
  }

  /** Piping `fs` then `gs` is piping their concatenation. */
  lemma {:induction false} PipeAppend<T>(fs: seq<T -> T>, gs: seq<T -> T>, value: T)
    ensures Pipe(fs + gs, value) == Pipe(gs, Pipe(fs, value))
    decreases |fs|
  {
    if |fs| == 0 {
      assert fs + gs == gs;
    } else {
      assert (fs + gs)[1..] == fs[1..] + gs;
      PipeAppend(fs[1..], gs, fs[0](value));
    }
  }

  /** The last function is applied last: `pipe(f1, ..., fn)(x) == fn(pipe(f1, ..., fn-1)(x))`. */
  lemma PipeLast<T>(fns: seq<T -> T>, value: T)
    requires |fns| > 0
    ensures Pipe(fns, value) == fns[|fns| - 1](Pipe(fns[..|fns| - 1], value))
  {
    var n := |fns|;
    assert fns == fns[..n - 1] + [fns[n - 1]];
    PipeAppend(fns[..n - 1], [fns[n - 1]], value);
    PipeSingle(fns[n - 1], Pipe(fns[..n - 1], value));
  }

  /** Three stages in a row. */
  lemma PipeThree<T>(f: T -> T, g: T -> T, h: T -> T, value: T)
    ensures Pipe([f, g, h], value) == h(g(f(value)))
  {
    assert [f, g, h][1..] == [g, h];
    assert [g, h][1..] == [h];
    PipeSingle(h, g(f(value)));
  }
}

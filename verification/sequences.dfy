/** Small sequence helpers shared by the model. Every recursion over a sequence here and in
    the other modules peels off the LAST element, so a loop over a growing prefix meets the
    definition unfolded once per step. */
module Sequences {

  /** The last element of a non-empty sequence (`back()` of a vector). */
  function Last<T>(xs: seq<T>): T
    requires |xs| > 0
  {
    xs[|xs| - 1]
  }

  /** Everything but the last element. */
  function Init<T>(xs: seq<T>): seq<T>
    requires |xs| > 0
  {
    xs[..|xs| - 1]
  }

  /** The blocks `f(x)` of the elements of `xs`, concatenated in order. */
  function FlatMap<T, U>(xs: seq<T>, f: T -> seq<U>): seq<U>
    decreases |xs|
  {
    if |xs| == 0 then [] else FlatMap(Init(xs), f) + f(Last(xs))
  }

  /** Concatenated blocks split along a split of the input: no block depends on its
      neighbours. */
  lemma {:induction false} FlatMapSplit<T, U>(xs: seq<T>, ys: seq<T>, f: T -> seq<U>)
    ensures FlatMap(xs + ys, f) == FlatMap(xs, f) + FlatMap(ys, f)
    decreases |ys|
  {
    if |ys| == 0 {
      assert xs + ys == xs;
    } else {
      assert Init(xs + ys) == xs + Init(ys) && Last(xs + ys) == Last(ys);
      FlatMapSplit(xs, Init(ys), f);
    }
  }
}

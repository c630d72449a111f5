/** The subsequence relation used to state that the model keeps input order. */
module Sequences {

  /** `xs` is obtained from `ys` by deleting some elements, keeping the
      order of the others. */
  predicate IsSubsequence<T(==)>(xs: seq<T>, ys: seq<T>)
    decreases |ys|
  {
    if xs == [] then true
    else if ys == [] then false
    else (xs[0] == ys[0] && IsSubsequence(xs[1..], ys[1..])) || IsSubsequence(xs, ys[1..])
  }
}

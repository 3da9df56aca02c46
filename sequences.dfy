/** Sums of numbers and a fact about concatenation, shared by the other modules. */
module Sequences {

  /** The sum of a list of numbers, added from left to right as Python's `sum` and `np.mean` do. */
  function Sum(xs: seq<real>): real {
    if xs == [] then 0.0 else Sum(xs[..|xs| - 1]) + xs[|xs| - 1]
  }

  /** Concatenation of sequences is associative. */
  lemma AppendAssociative<T>(x: seq<T>, y: seq<T>, z: seq<T>)
    ensures x + (y + z) == (x + y) + z
  {
  }
}

/** Seqs: a list seen as a set, and a list with no element twice. */
module Seqs {

  /** The elements of a list, as a set (Python's `set(xs)`). */
  function Elems<T>(xs: seq<T>): set<T>
  {
    set x | x in xs
  }

  predicate NoDup<T(==)>(xs: seq<T>)
  {
    forall i, j | 0 <= i < j < |xs| :: xs[i] != xs[j]
  }
}

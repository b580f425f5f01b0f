/**
 * Small shared vocabulary: the optional value that stands for a Java
 * reference that may be null, and ascending order of integer sequences.
 */
module Common {

  datatype Option<+T> = None | Some(value: T)

  /** Ascending order, repetitions allowed. */
  predicate Ascending(xs: seq<int>)
  {
    forall i, j :: 0 <= i < j < |xs| ==> xs[i] <= xs[j]
  }
}

/** Rearrangements of sequences used by several proofs. */
module Seqs {
  /** Dropping the last element of a concatenation drops it from the second part. */
  lemma LastOfSum<T>(a: seq<T>, b: seq<T>)
    requires b != []
    ensures (a + b)[..|a + b| - 1] == a + b[..|b| - 1] && (a + b)[|a + b| - 1] == b[|b| - 1]
  {
  }

  lemma Regroup<T>(a: seq<T>, b: seq<T>, c: seq<T>)
    ensures a + b + c == a + (b + c)
  {
  }

  lemma Empty<T>(a: seq<T>)
    ensures a + [] == a && [] + a == a
  {
  }
}

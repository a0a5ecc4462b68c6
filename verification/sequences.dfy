/** Generic facts about sequences that the list proofs share. */
module Sequences {

  /** Concatenation is associative. Stated once so that proofs about recursively
      built lists can regroup a concatenation without unfolding their functions. */
  lemma AppendAssoc<T>(x: seq<T>, y: seq<T>, z: seq<T>)
    ensures x + (y + z) == (x + y) + z
  {
  }
}

/**
 Sequence facts the list-building loops share.
 */
module Seqs {

  /** Concatenation is associative; stated once so that proofs appending to
      a recursively built list need not re-derive it elementwise. */
  lemma AppendAssoc<T>(x: seq<T>, y: seq<T>, z: seq<T>)
    ensures x + (y + z) == (x + y) + z
  {
  }
}

/** Facts about sequences that several modules share. */
module Seqs {

  /** The first element and the rest of a concatenation with a non-empty left part. */
  lemma ConsConcat<T>(a: seq<T>, b: seq<T>)
    requires a != []
    ensures (a + b)[0] == a[0] && (a + b)[1..] == a[1..] + b
  {
  }
}

/** Regrouping of sequences, which the verifier does on request only. */
module Sequences {

  lemma {:induction false} Regroup<T>(x: seq<T>, y: seq<T>, z: seq<T>)
    ensures x + (y + z) == x + y + z
  {
  }

  lemma {:induction false} RegroupFour<T>(x: seq<T>, y: seq<T>, z: seq<T>, w: seq<T>)
    ensures x + (y + z + w) == x + y + z + w
  {
  }
}

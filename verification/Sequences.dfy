/** Small facts about sequences. */
module Sequences {

  /** Concatenation regroups. */
  lemma Regroup<T>(a: seq<T>, b: seq<T>, c: seq<T>, d: seq<T>)
    ensures a + (b + c) == a + b + c
    ensures a + (b + (c + d)) == a + b + c + d
  {
  }
}

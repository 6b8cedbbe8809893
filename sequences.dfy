/** Facts about sequence concatenation shared by the other modules. */
module Sequences {
  /** Concatenation regroups freely. */
  lemma AppendAssociates<T>(a: seq<T>, b: seq<T>, c: seq<T>)
    ensures a + (b + c) == a + b + c
  {
  }
}

/**
 * Optional values (a request field that may be absent, a nullable column, a
 * lookup that may miss) and one fact about sequences the proofs share.
 */
module Wrappers {

  datatype Option<+T> = None | Some(value: T)

  lemma ConcatAssoc<T>(a: seq<T>, b: seq<T>, c: seq<T>)
    ensures a + (b + c) == (a + b) + c
  {
  }
}

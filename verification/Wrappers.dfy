/** Small shared types. */
module Wrappers {

  datatype Option<+T> = None | Some(value: T)

  // One byte of a Go byte slice.
  type byte = x: int | 0 <= x < 256

  lemma Associative<T>(a: seq<T>, b: seq<T>, c: seq<T>)
    ensures a + (b + c) == (a + b) + c
  {
  }
}

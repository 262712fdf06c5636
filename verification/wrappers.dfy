/** Failure-compatible wrappers and small sequence facts used throughout the model. */
module Wrappers {

  /** A value that may be absent: a Kotlin nullable reference. */
  datatype Option<+T> = None | Some(value: T)

  /** Either a value or the error that the source would have thrown. */
  datatype Result<+T, +E> = Success(value: T) | Failure(error: E) {
    predicate IsFailure() {
      Failure?
    }

    function PropagateFailure<U>(): Result<U, E>
      requires Failure?
    {
      Failure(error)
    }

    function Extract(): T
      requires Success?
    {
      value
    }
  }

  function Min(a: int, b: int): int {
    if a <= b then a else b
  }

  /** Concatenation regrouped, for proofs that build strings piece by piece. */
  lemma ConcatAssociates<T>(a: seq<T>, b: seq<T>, c: seq<T>)
    ensures a + b + c == a + (b + c)
  {
  }
}

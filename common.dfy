/** Small value types shared by the modules of this model. */
module Common {

  /** An optional value, used where the source returns "nothing found". */
  datatype Option<T> = None | Some(value: T)

  /** The outcome of an operation that the source aborts with an error message. */
  datatype Result<T, E> = Success(value: T) | Failure(error: E)

  function Min(a: int, b: int): int { if a <= b then a else b }

  function Max(a: int, b: int): int { if a >= b then a else b }
}

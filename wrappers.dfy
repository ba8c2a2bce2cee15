/** Option and Result values for the optional fields and error paths of the model. */
module Wrappers {

  datatype Option<+T> = None | Some(value: T)

  datatype Result<+T, +E> = Success(value: T) | Failure(error: E)

  /** The smaller of two integers, Python's min of two values. */
  function Min(a: int, b: int): int
  {
    if a <= b then a else b
  }
}

/** Option and Result, the two wrappers the model uses for absent values and raised errors. */
module Wrappers {

  datatype Option<+T> = None | Some(value: T)

  datatype Result<+T, +E> = Success(value: T) | Failure(error: E)

  /** `x or []` for an optional list. */
  function OrEmpty<T>(o: Option<seq<T>>): (s: seq<T>)
  {
    match o
    case None => []
    case Some(s) => s
  }
}

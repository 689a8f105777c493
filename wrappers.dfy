/** Option and Result, the two wrapper datatypes the model uses for
    JavaScript's `null` and for the program's fatal exits. */
module Wrappers {

  datatype Option<+T> = None | Some(value: T)

  datatype Result<+T, +E> = Success(value: T) | Failure(error: E)
}

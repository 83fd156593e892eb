/** Option and Result, the two wrappers the model uses for Python's `None`
    returns and for the exceptions the program raises. */
module Basics {

  datatype Option<+T> = None | Some(value: T)

  datatype Result<+T, +E> = Success(value: T) | Failure(error: E)
}

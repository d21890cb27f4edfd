/** Failure-carrying values for the operations that the Python code ends with
    `None`, an error message or a raised exception. */
module Wrappers {

  datatype Option<+T> = None | Some(value: T)

  datatype Result<+R, +E> = Success(value: R) | Failure(error: E)
}

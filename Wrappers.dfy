/** Option, Result and Outcome: the shapes in which a validator either hands back
    its value or reports what it rejected. */
module Wrappers {

  datatype Option<+T> = None | Some(value: T)

  datatype Result<+R, +E> = Success(value: R) | Failure(error: E)

  datatype Outcome<+E> = Pass | Fail(error: E)
}

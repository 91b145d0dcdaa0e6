/** Option and Result: the failure-carrying values that replace the
    exceptions and `sys.exit(1)` calls of the program. */
module Wrappers {

  datatype Option<+T> = None | Some(value: T)

  datatype Result<+R, +E> = Success(value: R) | Failure(error: E)
}

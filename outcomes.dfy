/** Optional values and error-carrying results, standing in for Python's
    `None` and for the early `sys.exit` paths of the script. */
module Outcomes {

  datatype Option<+T> = None | Some(value: T)

  datatype Result<+R, +E> = Success(value: R) | Failure(error: E)
}

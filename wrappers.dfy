/** Option and Result, the two failure-carrying shapes the model uses:
    Python's `None` results and the exceptions the program catches. */
module Wrappers {

  datatype Option<+T> = None | Some(value: T)

  datatype Result<+T, +E> = Success(value: T) | Failure(error: E)
}

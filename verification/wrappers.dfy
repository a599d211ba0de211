/** The two failure-carrying shapes the model uses: an optional value (a row
    that may be missing, a nullable column) and the outcome of a call that may
    throw (a signing key that is not configured, a malformed password hash). */
module Wrappers {

  datatype Option<+T> = None | Some(value: T)

  datatype Result<+T, +E> = Success(value: T) | Failure(error: E)
}

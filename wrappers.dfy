/** Option and Result: JavaScript's `undefined` field values and the thrown
    errors / HTTP error replies of the catalog, as values. */
module Wrappers {

  datatype Option<+T> = None | Some(value: T)

  datatype Result<+R, +E> = Success(value: R) | Failure(error: E)
}

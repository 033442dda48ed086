/** Optional values and results with an error message, as the report builder
    uses them for absent timestamps and for fetches that fail. */
module Wrappers {

  datatype Option<+T> = None | Some(value: T)

  datatype Result<+R, +E> = Success(value: R) | Failure(error: E)
}

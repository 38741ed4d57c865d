/** Optional values and results, used for every field the pipeline may fail to extract. */
module Wrappers {

  /** A value that may be missing (Python's None, pandas' NaN). */
  datatype Option<+T> = None | Some(value: T) {

    function GetOr(default: T): T {
      match this
      case Some(v) => v
      case None => default
    }
  }

  /** The outcome of an operation that the source lets fail with an error. */
  datatype Result<+R, +E> = Success(value: R) | Failure(error: E)
}

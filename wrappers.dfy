/** Optional values and results shared by the other modules. */
module Wrappers {

  /** A value that may be absent: pandas' NaN / Python's None in a result column. */
  datatype Option<+T> = None | Some(value: T)

  /** The outcome of an operation that raises an exception on some inputs. */
  datatype Result<+R, +E> = Success(value: R) | Failure(error: E)
}

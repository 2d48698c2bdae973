/** Optional values and results shared by the other modules. */
module Wrappers {

  /** A field that may be absent (`undefined` in the feed items). */
  datatype Option<+T> = None | Some(value: T)

  /** The outcome of a step that may throw. */
  datatype Result<+R, +E> = Success(value: R) | Failure(error: E)
}

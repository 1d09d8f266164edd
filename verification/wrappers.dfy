/** Optional values and results, used where the component reads a value that
    may be absent (`File | null`, `files?.[0]`) or where a handler throws. */
module Wrappers {

  /** A value that may be missing: JavaScript's `null` / `undefined`. */
  datatype Option<+T> = None | Some(value: T)

  /** The outcome of an event handler: the next state, or the exception it threw. */
  datatype Result<+R, +E> = Success(value: R) | Failure(error: E)
}

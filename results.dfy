/** Failure-carrying wrappers used for Python's `None` and for raised exceptions. */
module Results {

  /** A value that may be absent (Python's `None`). */
  datatype Option<+T> = None | Some(value: T)

  /** A computed value, or the exception that aborted the computation. */
  datatype Result<+T, +E> = Success(value: T) | Failure(error: E)

  /** A check that either passes or raises. */
  datatype Outcome<+E> = Pass | Fail(error: E)
}

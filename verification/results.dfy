/** Failure-carrying result types shared by the fix accumulator and the
    port matcher. */
module Results {

  /** A value that may be absent; Python's `Optional[...]` / `None`. */
  datatype Option<+T> = None | Some(value: T)

  /** The outcome of an operation that either returns a value or raises. */
  datatype Result<+T, +E> = Success(value: T) | Failure(error: E)
}

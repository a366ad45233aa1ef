/** Optional values and fallible results, the two shapes the sync pass's
    store calls return. Failures are propagated with `match`, so that a
    branch the verifier can rule out carries no proof obligation. */
module Results {

  /** An optional value, Rust's `Option<T>`. */
  datatype Option<+T> = None | Some(value: T)

  /** The outcome of a store call, Rust's `Result<T, E>`. */
  datatype Result<+T, +E> = Success(value: T) | Failure(error: E)
}

/** Failure-compatible return types shared by every module of the model. */
module Wrappers {

  /** A value that may be absent (Rust's `Option`). */
  datatype Option<+T> = None | Some(value: T)

  /** The outcome of an operation that can fail; `Failure` stands for a Rust
      panic or a Python exception of the modelled code. */
  datatype Result<+T, +E> = Success(value: T) | Failure(error: E)

  /** Rust's `unwrap_or`: the value, or `default` when there is none. */
  function UnwrapOr<T>(o: Option<T>, default: T): T {
    if o.Some? then o.value else default
  }
}

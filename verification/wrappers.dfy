/** Failure-compatible wrappers: `Option` stands for a possibly-NULL pointer,
    `Result` for an operation that may end in the compiler's `fatal()` exit. */
module Wrappers {

  /** A pointer that may be NULL. */
  datatype Option<+T> = None | Some(value: T)

  /** The outcome of an operation that either completes or calls `fatal(msg)`. */
  datatype Result<+T> = Ok(value: T) | Fatal(msg: string)
}

/** Failure-carrying values shared by the modules of this model: the `Option`,
    `anyhow::Result<T>` and `anyhow::Result<()>` of the Rust program. */
module Wrappers {

  datatype Option<+T> = None | Some(value: T)

  /** A value or the error that stopped the computation. */
  datatype Result<+T, +E> = Ok(value: T) | Err(error: E)

  /** `Result<(), E>`: success, or the error that stopped the computation. */
  datatype Outcome<+E> = Pass | Fail(error: E)
}

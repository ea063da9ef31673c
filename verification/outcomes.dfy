/** Optional values and results shared by every module of the model. */
module Outcomes {

  /** A value that may be absent (Rust's `Option`). */
  datatype Option<+T> = None | Some(value: T)

  /** A computation that either produced a value or hit a fatal error.
      In the modelled program every error is an `expect`/`panic!` that ends the task,
      so `Err` stands for that panic and carries which one it was. */
  datatype Result<+T, +E> = Ok(value: T) | Err(error: E)
}

/** Failure-compatible helper datatypes used across the model. */
module Wrappers {

  /** Something that may be absent (Rust's `Option`). */
  datatype Option<+T> = None | Some(value: T)
}

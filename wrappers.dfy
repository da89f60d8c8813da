/** Rust's Option, the one wrapper the model needs. */
module Wrappers {

  datatype Option<+T> = None | Some(value: T)
}

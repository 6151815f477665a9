/** Rust's `Option`, the result type of every lookup in the table. */
module Wrappers {

  datatype Option<+T> = None | Some(value: T)

}

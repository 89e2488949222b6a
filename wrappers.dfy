/** The optional value returned by Rust's `Option`-producing calls (`find`, `peek`, `attr`). */
module Wrappers {
  datatype Option<+T> = None | Some(value: T)
}

/** The optional value the Rust standard library calls `Option`. */
module Wrappers {

  datatype Option<+T> = None | Some(value: T)
}

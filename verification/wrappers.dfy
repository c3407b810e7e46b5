/** The optional value used for pattern cells (Rust's `Option<char>`) and for
    results that may be rejected. */
module Wrappers {

  datatype Option<+T> = None | Some(value: T)
}

/** The optional result of a search: `Some(offset)` or `None`, as Rust's `Option`. */
module Wrappers {

  datatype Option<+T> = None | Some(value: T)
}

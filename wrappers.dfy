/** The optional value that the scanner's Rust source writes as `Option<T>`. */
module Wrappers {

  datatype Option<+T> = None | Some(value: T)
}

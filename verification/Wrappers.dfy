/** The shape of Go's (value, ok) returns, and of (value, error) returns whose error is not told apart. */
module Wrappers {

  datatype Option<+T> = None | Some(value: T)
}

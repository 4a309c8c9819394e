/** The optional value returned where the original raises on malformed input. */
module Wrappers {
  datatype Option<T> = None | Some(value: T)
}

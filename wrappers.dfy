/** Option, the failure-carrying shape the model needs. */
module Wrappers {

  /** A value that may be absent, as PHP's `strpos` returns an index or `false`. */
  datatype Option<+T> = None | Some(value: T)
}

/** A value that may be missing: a NaN, or the result of a call that stops with icebin_error. */
module Wrappers {
  datatype Option<+T> = None | Some(value: T)
}

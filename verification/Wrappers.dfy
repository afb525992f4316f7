/** A value that may be missing: a C pointer or answer that may be NULL. */
module Wrappers {
  datatype Option<+T> = None | Some(value: T)
}

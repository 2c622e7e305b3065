/** A value that may be missing: Python's None, a missing key, or an exception the model only needs to know of. */
module Wrappers {
  datatype Option<+T> = None | Some(value: T)
}

/** A value that may be absent: a missing cell of a column, or a failed computation. */
module Wrappers {
  datatype Option<+T> = None | Some(value: T)
}

/**
 * Optional values: a missing table cell (pandas NaN) is modelled as None,
 * and so is the exception of an operation modelled as written.
 */
module Wrappers {
  datatype Option<+T> = None | Some(value: T)
}

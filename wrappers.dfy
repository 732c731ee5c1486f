/*
 * Go's nilable values: a nil error or a missing value is None.
 */
module Wrappers {

  datatype Option<+T> = None | Some(value: T)
}

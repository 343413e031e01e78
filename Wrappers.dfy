/** Option datatype used for the error paths of the converter. */
module Wrappers {
  datatype Option<+T> = None | Some(value: T)
}

/** Small failure-compatible helper shared by the other modules. */
module Wrappers {

  /** A value that may be missing: a dictionary key that is absent, a row
      that was not found, a list index that raises. */
  datatype Option<+T> = None | Some(value: T)
}

/** Small wrapper types shared by the library model. */
module Basics {

  /** A value that may be missing: Python's `None` versus a found value. */
  datatype Option<+T> = None | Some(value: T)
}

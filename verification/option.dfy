/** Small wrapper types shared by the modules of this model. */
module Wrappers {

  /** A value that may be absent, as Python's `None` or a missing dict key. */
  datatype Option<+T> = None | Some(value: T)
}

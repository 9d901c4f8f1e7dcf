/** An optional value shared by the modules of this model. */
module Wrappers {

  /** A value that may be absent: an unset environment variable, a pointer
      that is not pressed, an insert that did not fail. */
  datatype Option<+T> = None | Some(value: T)
}

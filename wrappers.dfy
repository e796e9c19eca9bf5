/** The optional-value datatype shared by the other modules. */
module Wrappers {

  /** A value that may be absent (`undefined` / `null` in the original program). */
  datatype Option<+T> = None | Some(value: T)
}

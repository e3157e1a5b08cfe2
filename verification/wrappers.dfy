/** The optional-value datatype shared by the store model and the counter. */
module Wrappers {

  /** A value that may be missing: an absent hash field, a store call that did not fail. */
  datatype Option<+T> = None | Some(value: T)
}

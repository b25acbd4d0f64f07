/** The optional-value datatype used for "no event" and "not found" results. */
module Wrappers {

  /** Either nothing, or a value. */
  datatype Option<+T> = None | Some(value: T)
}

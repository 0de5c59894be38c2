/** The Option datatype, standing for a pointer result that may be NULL. */
module Wrappers {

  datatype Option<+T> = None | Some(value: T)
}

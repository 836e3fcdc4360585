/** The Option datatype used where the component reads a value that may be missing. */
module Wrappers {

  datatype Option<+T> = None | Some(value: T)
}

/** The optional value used where the sources return NULL or a failure code. */
module Wrappers {
  datatype Option<+T> = None | Some(value: T)
}

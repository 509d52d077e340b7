/** The optional value used for error messages and failure positions. */
module Wrappers {

  datatype Option<+T> = None | Some(value: T)
}

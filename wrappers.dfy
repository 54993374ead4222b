/** The optional value used for a pointer that may be nil. */
module Wrappers {

  datatype Option<T> = None | Some(value: T)
}

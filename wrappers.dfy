/** The optional value used for Go's nil-able results. */
module Wrappers {
  datatype Option<T> = None | Some(value: T)
}

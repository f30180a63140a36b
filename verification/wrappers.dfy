/** The optional value used for operations pandas can refuse. */
module Wrappers {
  datatype Option<T> = None | Some(value: T)
}

/** The optional value used where the source returns null or swallows a failure. */
module Wrappers {
  datatype Option<T> = None | Some(value: T)
}

/** The optional value used for "a row or absent" answers of the store. */
module Wrappers {
  datatype Option<+T> = None | Some(value: T)
}

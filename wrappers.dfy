/** The optional value used for "nothing removed" and "no entry". */
module Wrappers {
  datatype Option<T> = None | Some(value: T)
}

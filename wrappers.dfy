/** The optional value a function returns when it may produce nothing. */
module Wrappers {
  datatype Option<+T> = None | Some(value: T)
}

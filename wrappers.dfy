/** Option, used where the source returns None, an empty tuple or raises. */
module Wrappers {
  datatype Option<T> = None | Some(value: T)
}

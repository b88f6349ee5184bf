/** An optional value, for the null pointers and not-found results of the source. */
module Wrappers {
  datatype Option<T> = None | Some(value: T)
}

/** An optional value, for inputs the source may or may not have loaded. */
module Wrappers {
  datatype Option<T> = None | Some(value: T)
}

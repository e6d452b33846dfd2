/** A value that may be absent: `undefined` and `null` results. */
module Wrappers {
  datatype Option<T> = None | Some(value: T)
}

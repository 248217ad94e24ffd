/** A value that may be absent: JavaScript's `undefined` results and default parameters. */
module Wrappers {
  datatype Option<T> = None | Some(value: T)
}

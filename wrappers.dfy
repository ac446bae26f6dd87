/** A value that may be absent: a JavaScript `undefined`/`null` or a NaN result. */
module Wrappers {
  datatype Option<+T> = None | Some(value: T)
}

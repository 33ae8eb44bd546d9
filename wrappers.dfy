/** A value that may be absent: JavaScript's `undefined`, `false` or a missing parameter. */
module Wrappers {

  datatype Option<+T> = None | Some(value: T)
}

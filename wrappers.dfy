/** A value that may be absent: JavaScript's `null`/`undefined` next to a
    present value. */
module Wrappers {

  datatype Option<T> = None | Some(value: T)
}

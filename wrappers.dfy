/** A value that may be absent, as `null` is used for "nothing yet". */
module Wrappers {
  datatype Option<T> = None | Some(value: T)
}

/** A value that may be absent: the component's `null` selection, a storage slot
    that holds nothing, a parse that throws. */
module Wrappers {
  datatype Option<+T> = None | Some(value: T)
}

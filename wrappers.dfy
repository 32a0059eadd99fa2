/** Python's `None`-or-value, as used for the pending jump index. */
module Wrappers {

  datatype Option<T> = None | Some(value: T)
}

/** An optional value, used for "a block was chosen" versus "no block fits". */
module Wrappers {
  datatype Option<T> = None | Some(value: T)
}

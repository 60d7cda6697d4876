/** The optional value used across the model: NULL pointers, missing keys, a failed scan. */
module Wrappers {
  datatype Option<T> = None | Some(value: T)
}

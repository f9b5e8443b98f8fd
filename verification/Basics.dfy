/** Types shared by the models of byte-level code. */
module Basics {

  type Byte = b: int | 0 <= b < 256

  datatype Option<T> = None | Some(value: T)
}

/** Types shared by the models. */
module Basics {
  datatype Option<+T> = None | Some(value: T)

  type Byte = b: nat | b < 256
}

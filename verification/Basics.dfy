/** Types shared by the models. */
module Basics {

  datatype Option<+T> = None | Some(value: T)

  type Byte = n: nat | n < 256

  /** A process. */
  type Pid = nat
}

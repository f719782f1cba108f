/** Types shared by the modules. */
module Basics {
  datatype Option<+T> = None | Some(value: T)

  type Byte = x: int | 0 <= x < 256
  type Bytes = seq<Byte>
  type u32 = x: int | 0 <= x < 0x1_0000_0000
}

/** Values that may be missing, and the range of a 64-bit word. */
module Wrappers {

  datatype Option<+T> = None | Some(value: T)

  const UINT64_MAX: nat := 0xFFFF_FFFF_FFFF_FFFF
  const MODULUS: nat := 0x1_0000_0000_0000_0000
}

/**
 Integer widths, and small datatypes that several components use.
 */
module Basics {

  type u8 = x: nat | x < 0x100
  type u16 = x: nat | x < 0x1_0000

  const UINT16_MAX: u16 := 0xFFFF

  datatype Option<T> = None | Some(value: T)

  // The height of a map block in its sector.
  datatype Height = Height(value: int)

  // The position of a map block.
  datatype BlockPos = BlockPos(x: int, y: Height, z: int)
}

/** The unsigned integers of the firmware's C code, as ranges of the integers. */
module Words {

  type byte = b: int | 0 <= b < 0x100
  type u8 = n: int | 0 <= n < 0x100
  type u16 = n: int | 0 <= n < 0x1_0000
  type u32 = n: int | 0 <= n < 0x1_0000_0000
  type u64 = n: int | 0 <= n < 0x1_0000_0000_0000_0000

  const MAX_UINT32: int := 0xFFFF_FFFF
  const MAX_UINT64: int := 0xFFFF_FFFF_FFFF_FFFF
}

/** The 32-bit words of the processor. */
module Words {

  const U32 := 0x1_0000_0000

  type u32 = x: int | 0 <= x < U32
  type s32 = x: int | -0x8000_0000 <= x < 0x8000_0000
}

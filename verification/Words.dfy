/** 32-bit words. */
module Words {
  const WRAP := 0x1_0000_0000

  type Word = x: int | 0 <= x < WRAP
}

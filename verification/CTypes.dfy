/** The machine's bytes and 16-bit words. */
module CTypes {
  type Byte = b: int | 0 <= b < 256
  type Word = w: int | 0 <= w < 0x1_0000
}

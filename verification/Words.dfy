/** Bytes, and how many values words of some widths have. */
module Words {

  type Byte = x: int | 0 <= x < 256

  const TWO_32: nat := 0x1_0000_0000
  const TWO_33: nat := 0x2_0000_0000
  const TWO_64: nat := 0x1_0000_0000_0000_0000
}

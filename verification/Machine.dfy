/** Bytes, and the number of values of the machine words. */
module Machine {

  type byte = bv8

  const UINT16 := 0x1_0000
  const UINT32 := 0x1_0000_0000
}

/** What all parts take from the machine: bytes, and pages of memory. */
module Machine {
  type byte = x: int | 0 <= x < 256
  const PAGE: nat := 0x1000
}

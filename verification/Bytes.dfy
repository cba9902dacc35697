/** Bytes, pages and the sizes of the 32-bit address space. */
module Bytes {

  type Byte = x: nat | x < 256

  const PAGE_SIZE: nat := 0x1000
  const NUM_PAGES: nat := 0x10_0000

  // RAM holds at most 4 GiB: the machine keeps one clean bit for each of 2^20 frames.
  const MAX_RAM: nat := 0x1_0000_0000
}

/** The sizes of pages and blocks. */
module Paging {

  /** 1 << PAGE_BITS, on every platform. */
  const PAGE: nat := 0x1000

  /** 1 << ARM_2MB_BLOCK_BITS and 1 << ARM_1GB_BLOCK_BITS. */
  const BLOCK: nat := 0x20_0000
  const GIB: nat := 0x4000_0000
}

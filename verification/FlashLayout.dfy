/** Memory map of the on-chip flash and the page numbering of the driver. */
module FlashLayout {
  import opened Arithmetic32

  const MCU_FLASH_START_ADDRESS: u32 := 0x00000000
  const MCU_FLASH_SIZE: u32 := 512 * 1024
  const MCU_FLASH_END_ADDRESS: u32 := MCU_FLASH_START_ADDRESS + MCU_FLASH_SIZE
  const MCU_FLASH_PAGE_SIZE: u32 := 0x1000
  const PAGES: nat := MCU_FLASH_SIZE / MCU_FLASH_PAGE_SIZE
  const WORDS: nat := MCU_FLASH_SIZE / 4
  const NO_PAGE: u32 := 0xFFFFFFFF

  function GetPage(addr: u32): u32 {
    if addr < MCU_FLASH_END_ADDRESS then
      (addr - MCU_FLASH_START_ADDRESS) / MCU_FLASH_PAGE_SIZE
    else
      NO_PAGE
  }

  /** The number of words that `n` bytes from a word boundary occupy. */
  function WordCount(n: nat): nat {
    (n + 3) / 4
  }

  /** Byte `j` lies in the pages `[lo, hi)` exactly when its page number does. */
  lemma InPages(lo: nat, hi: nat, j: nat)
    ensures lo * 0x1000 <= j < hi * 0x1000 <==> lo <= j / 0x1000 < hi
  {
  }

  lemma Floor(x: nat, y: nat)
    ensures x <= y ==> x / 0x1000 <= y / 0x1000
  {
  }
}

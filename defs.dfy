/** Machine integers, C unsigned arithmetic and the driver's constants (sEEPROM.h). */
module Defs {

  /** Size of the Cortex-M0+ 32-bit address space. */
  const ADDRESS_SPACE: int := 0x1_0000_0000
  /** Number of values of a uint16_t. */
  const U16_RANGE: int := 0x1_0000

  type u8 = x: int | 0 <= x < 0x100
  type u16 = x: int | 0 <= x < 0x1_0000
  type u32 = x: int | 0 <= x < 0x1_0000_0000

  /** C addition of two uint32_t values (or of a 32-bit pointer and a byte offset): the sum
      modulo 2^32. */
  function Add32(a: u32, b: u32): u32
  {
    if a + b < ADDRESS_SPACE then a + b else a + b - ADDRESS_SPACE
  }

  /** Adding in two steps with wrap-around is adding once with wrap-around. */
  lemma Add32Add32(a: u32, b: u32, c: u32)
    requires b + c < ADDRESS_SPACE
    ensures Add32(Add32(a, b), c) == Add32(a, b + c)
  {
  }

  /** The address of element i + 1 of an array of w-byte elements at base. */
  lemma ElementAddressStep(base: u32, w: nat, i: nat)
    requires w * (i + 1) < ADDRESS_SPACE
    ensures Add32(Add32(base, w * i), w) == Add32(base, w * (i + 1))
  {
    assert w * i + w == w * (i + 1);
    Add32Add32(base, w * i, w);
  }

  /** C addition of two uint16_t values stored back into a uint16_t (`startOffset += ...`). */
  function Add16(a: u16, b: u16): u16
  {
    if a + b < U16_RANGE then a + b else a + b - U16_RANGE
  }

  /** `idx++` on a uint16_t. */
  function Inc16(x: u16): u16
  {
    Add16(x, 1)
  }

  // Return codes
  const SEEPROM_NOK: u8 := 0
  const SEEPROM_OK: u8 := 1
  const SEEPROM_OF: u8 := 2

  // The STM32L051 data EEPROM
  const SEEPROM_START: u32 := 0x0808_0000
  const SEEPROM_SIZE: int := 2048
  const SEEPROM_END: int := SEEPROM_START + SEEPROM_SIZE

  // Keys written to FLASH->PEKEYR to unlock the data EEPROM and PECR
  const PEKEY_VALUE_1: bv32 := 0x89AB_CDEF
  const PEKEY_VALUE_2: bv32 := 0x0203_0405

  // Bits of FLASH->PECR (values of the STM32L0x1 device header)
  const FLASH_PECR_PELOCK: bv32 := 0x0000_0001
  const FLASH_PECR_ERASE: bv32 := 0x0000_0200

  /** Clearing PELOCK and setting it again leaves PECR with PELOCK set and nothing else changed. */
  lemma UnlockThenLock(p: bv32)
    ensures (p & !FLASH_PECR_PELOCK) | FLASH_PECR_PELOCK == p | FLASH_PECR_PELOCK
  {
  }

  /** The PECR updates of erase: clear PELOCK, set ERASE, clear ERASE, set PELOCK. */
  lemma EraseBits(p: bv32)
    ensures ((((p & !FLASH_PECR_PELOCK) | FLASH_PECR_ERASE) & !FLASH_PECR_ERASE) | FLASH_PECR_PELOCK)
            == (p & !FLASH_PECR_ERASE) | FLASH_PECR_PELOCK
    ensures ((p & !FLASH_PECR_PELOCK) | FLASH_PECR_ERASE) & FLASH_PECR_PELOCK == 0
  {
  }

  /** The return codes can be told apart and the EEPROM window is one contiguous,
      non-wrapping address range. */
  lemma ConstantsConsistent()
    ensures SEEPROM_NOK != SEEPROM_OK && SEEPROM_OK != SEEPROM_OF && SEEPROM_NOK != SEEPROM_OF
    ensures SEEPROM_END == SEEPROM_START + SEEPROM_SIZE && SEEPROM_END < ADDRESS_SPACE
    ensures PEKEY_VALUE_1 != PEKEY_VALUE_2
    ensures FLASH_PECR_PELOCK & FLASH_PECR_ERASE == 0
  {
  }
}

/** A mock of the STM32L051 bus and flash interface: the 32-bit address space, the PECR
    register, the PEKEYR unlock sequence and a ghost record of what the driver asks of it. */
module Flash {
  import opened Defs

  /** Widths of the stores the driver issues: uint8_t, uint16_t and uint32_t. */
  type Width = w: int | w == 1 || w == 2 || w == 4 witness 1

  /** The contents of the whole address space, EEPROM and RAM alike. */
  type Memory = m: seq<u8> | |m| == ADDRESS_SPACE witness seq(ADDRESS_SPACE, _ => 0)

  /** Number of bytes from address `from` forward to address `to`, counting with 32-bit wrap. */
  function Distance(from: u32, to: u32): (d: u32)
    ensures Add32(from, d) == to
  {
    if to >= from then to - from else to - from + ADDRESS_SPACE
  }

  lemma DistanceOfAdd(from: u32, n: nat)
    requires n <= ADDRESS_SPACE
    ensures forall j | 0 <= j < n :: Distance(from, Add32(from, j)) == j
  {
  }

  /** The bytes `bytes` stored at `addr`, `addr + 1`, ... (wrapping at 2^32). */
  function StoreBytes(m: Memory, addr: u32, bytes: seq<u8>): Memory
  {
    seq(ADDRESS_SPACE, i requires 0 <= i < ADDRESS_SPACE =>
      if Distance(addr, i) < |bytes| then bytes[Distance(addr, i)] else m[i])
  }

  /** The `width` bytes at `addr`, `addr + 1`, ... (wrapping at 2^32). */
  function LoadBytes(m: Memory, addr: u32, width: Width): (r: seq<u8>)
    ensures |r| == width
  {
    seq(width, j requires 0 <= j < width => m[Add32(addr, j)])
  }

  /** What the driver does to the flash interface, in order. */
  datatype Event =
    | BusyWait                      // `while (FLASH->SR & FLASH_SR_BSY);`
    | KeyWrite(key: bv32)           // `FLASH->PEKEYR = key;`
    | Store(addr: u32, width: Width)  // a `width`-byte store into the EEPROM window
    | PecrSet(bits: bv32)           // `FLASH->PECR |= bits;`
    | PecrClear(bits: bv32)         // `FLASH->PECR &= ~bits;`
    | Wfi                           // `__WFI();`

  class Mcu {
    var mem: Memory
    var pecr: bv32
    /** The first unlock key has just been written to PEKEYR. */
    var keyPending: bool
    ghost var trace: seq<Event>

    predicate Locked()
      reads this`pecr
    {
      pecr & FLASH_PECR_PELOCK != 0
    }

    constructor (init: Memory, resetPecr: bv32)
      ensures mem == init && pecr == resetPecr && !keyPending && trace == []
    {
      mem := init;
      pecr := resetPecr;
      keyPending := false;
      trace := [];
    }

    /** Spin until BSY is clear; the wait itself is not modelled, only that it happened. */
    method WaitWhileBusy()
      modifies this`trace
      ensures trace == old(trace) + [BusyWait]
    {
      trace := trace + [BusyWait];
    }

    /** A write to PEKEYR: PEKEY_VALUE_1 followed by PEKEY_VALUE_2 clears PELOCK. */
    method WriteKey(key: bv32)
      modifies this`pecr, this`keyPending, this`trace
      ensures trace == old(trace) + [KeyWrite(key)]
      ensures keyPending == (key == PEKEY_VALUE_1)
      ensures pecr == if old(keyPending) && key == PEKEY_VALUE_2
                      then old(pecr) & !FLASH_PECR_PELOCK else old(pecr)
    {
      if keyPending && key == PEKEY_VALUE_2 {
        pecr := pecr & !FLASH_PECR_PELOCK;
      }
      keyPending := key == PEKEY_VALUE_1;
      trace := trace + [KeyWrite(key)];
    }

    method SetPecrBits(bits: bv32)
      modifies this`pecr, this`trace
      ensures pecr == old(pecr) | bits
      ensures trace == old(trace) + [PecrSet(bits)]
    {
      pecr := pecr | bits;
      trace := trace + [PecrSet(bits)];
    }

    method ClearPecrBits(bits: bv32)
      modifies this`pecr, this`trace
      ensures pecr == old(pecr) & !bits
      ensures trace == old(trace) + [PecrClear(bits)]
    {
      pecr := pecr & !bits;
      trace := trace + [PecrClear(bits)];
    }

    /** A store into the EEPROM window; the controller drops it while PELOCK is set. */
    method Program(addr: u32, bytes: seq<u8>)
      requires |bytes| == 1 || |bytes| == 2 || |bytes| == 4
      modifies this`mem, this`trace
      ensures mem == if Locked() then old(mem) else StoreBytes(old(mem), addr, bytes)
      ensures trace == old(trace) + [Store(addr, |bytes|)]
    {
      if !Locked() {
        mem := StoreBytes(mem, addr, bytes);
      }
      trace := trace + [Store(addr, |bytes|)];
    }

    /** `__WFI()`: sleep until the next interrupt (the end of an erase cycle). */
    method WaitForInterrupt()
      modifies this`trace
      ensures trace == old(trace) + [Wfi]
    {
      trace := trace + [Wfi];
    }
  }
}

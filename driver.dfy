/** The driver class sEEPROM: a region (start address, length) of the data EEPROM, accessed
    through the flash interface `hw`. Pointers are 32-bit addresses into hw.mem. */
module Driver {
  import opened Defs
  import opened Flash
  import opened Plan

  class SEEPROM {
    var start: u32
    var length: u16

    constructor (s: u32, len: u16)
      ensures start == s && length == len
    {
      start := s;
      length := len;
    }

    /** The destructor clears both fields; it does not touch the hardware. */
    method Destroy()
      modifies this
      ensures start == 0 && length == 0
    {
      start := 0;
      length := 0;
    }

    /** Waits for BSY to clear, then writes the two keys to PEKEYR, which clears PELOCK. */
    method UnlockEEPROM(hw: Mcu)
      modifies hw`pecr, hw`keyPending, hw`trace
      ensures hw.trace == old(hw.trace) + UnlockTrace()
      ensures hw.pecr == old(hw.pecr) & !FLASH_PECR_PELOCK && !hw.Locked() && !hw.keyPending
    {
      hw.WaitWhileBusy();
      hw.WriteKey(PEKEY_VALUE_1);
      hw.WriteKey(PEKEY_VALUE_2);
    }

    /** Alias of UnlockEEPROM. */
    method UnlockPECR(hw: Mcu)
      modifies hw`pecr, hw`keyPending, hw`trace
      ensures hw.trace == old(hw.trace) + UnlockTrace()
      ensures hw.pecr == old(hw.pecr) & !FLASH_PECR_PELOCK && !hw.Locked() && !hw.keyPending
    {
      UnlockEEPROM(hw);
    }

    /** Waits for BSY to clear, then sets PELOCK, leaving the other PECR bits as they were. */
    method LockEEPROM(hw: Mcu)
      modifies hw`pecr, hw`trace
      ensures hw.trace == old(hw.trace) + LockTrace()
      ensures hw.pecr == old(hw.pecr) | FLASH_PECR_PELOCK && hw.Locked()
    {
      hw.WaitWhileBusy();
      hw.SetPecrBits(FLASH_PECR_PELOCK);
    }

    /** Alias of LockEEPROM. */
    method LockPECR(hw: Mcu)
      modifies hw`pecr, hw`trace
      ensures hw.trace == old(hw.trace) + LockTrace()
      ensures hw.pecr == old(hw.pecr) | FLASH_PECR_PELOCK && hw.Locked()
    {
      LockEEPROM(hw);
    }

    /** The template write<T>: for each idx below len, wait for BSY to clear, then
        `startAddr[idx] = value[idx]` with elements of `width` bytes. Every caller passes a
        non-zero len; the EEPROM must already be unlocked. */
    method WriteElements(hw: Mcu, startAddr: u32, value: u32, width: Width, len: u16)
      requires len >= 1 && !hw.Locked()
      modifies hw`mem, hw`trace
      ensures hw.mem == CopyElements(old(hw.mem), startAddr, value, width, len)
      ensures hw.trace == old(hw.trace) + ElementsTrace(startAddr, width, len)
    {
      var idx: u16 := 0;
      ghost var dst, src := startAddr, value;
      var more := true;
      while more
        invariant idx <= len && (more <==> idx < len)
        invariant dst == Add32(startAddr, width * idx) && src == Add32(value, width * idx)
        invariant CopyElements(hw.mem, dst, src, width, len - idx)
                  == CopyElements(old(hw.mem), startAddr, value, width, len)
        invariant old(hw.trace) + ElementsTrace(startAddr, width, len)
                  == hw.trace + ElementsTrace(dst, width, len - idx)
        decreases len - idx
      {
        ghost var before, m := hw.trace, hw.mem;
        WriteElement(hw, Add32(startAddr, width * idx), Add32(value, width * idx), width);
        CopyStep(old(hw.mem), m, hw.mem, startAddr, value, dst, src, width, len, len - idx);
        ElementsStep(old(hw.trace), before, hw.trace, startAddr, dst, width, len, len - idx);
        ElementAddressStep(startAddr, width, idx);
        ElementAddressStep(value, width, idx);
        dst, src := Add32(dst, width), Add32(src, width);
        idx := Inc16(idx);
        more := idx != len;
      }
    }

    /** The body of the template write's loop: wait for BSY to clear, then one element store
        `startAddr[idx] = value[idx]` of `width` bytes. */
    method WriteElement(hw: Mcu, dst: u32, src: u32, width: Width)
      requires !hw.Locked()
      modifies hw`mem, hw`trace
      ensures hw.mem == StoreBytes(old(hw.mem), dst, LoadBytes(old(hw.mem), src, width))
      ensures hw.trace == old(hw.trace) + [BusyWait, Store(dst, width)]
    {
      hw.WaitWhileBusy();
      hw.Program(dst, LoadBytes(hw.mem, src, width));
    }

    /** Copies bytes start + startOffset, ... into output[0], ... as the do-while does: with
        len == 0 the uint16_t index wraps and 65536 bytes are copied. The flash interface is
        not used. */
    method Read(hw: Mcu, startOffset: u16, output: u32, len: u16) returns (rc: u8)
      modifies hw`mem
      ensures rc == if OverflowTest(start, startOffset, len) then SEEPROM_OF else SEEPROM_OK
      ensures rc == SEEPROM_OF ==> hw.mem == old(hw.mem)
      ensures rc == SEEPROM_OK ==>
                hw.mem == CopyElements(old(hw.mem), output, Add32(start, startOffset), 1, Iterations(len))
    {
      if Add32(Add32(start, startOffset), len) < Add32(start, len) {
        return SEEPROM_OF;
      }
      var idx: u16 := 0;
      var addr := Add32(start, startOffset);
      ghost var count := 0;
      var more := true;
      while more
        invariant count <= Iterations(len) && idx == if count == U16_RANGE then 0 else count
        invariant more <==> count < Iterations(len)
        invariant CopyElements(hw.mem, Add32(output, count), Add32(addr, count), 1, Iterations(len) - count)
                  == CopyElements(old(hw.mem), output, addr, 1, Iterations(len))
        decreases Iterations(len) - count
      {
        ghost var m0 := hw.mem;
        hw.mem := hw.mem[Add32(output, idx) := hw.mem[Add32(addr, idx)]];
        assert hw.mem == StoreBytes(m0, Add32(output, count), LoadBytes(m0, Add32(addr, count), 1));
        Add32Add32(output, count, 1);
        Add32Add32(addr, count, 1);
        idx := Inc16(idx);
        count := count + 1;
        more := idx != len;
      }
      rc := SEEPROM_OK;
    }

    /** Bounds test, unlock, the tiers, lock. */
    method Write(hw: Mcu, startOffset: u16, value: u32, len: u16) returns (rc: u8)
      modifies hw`mem, hw`pecr, hw`keyPending, hw`trace
      ensures rc == if OverflowTest(start, startOffset, len) then SEEPROM_OF else SEEPROM_OK
      ensures rc == SEEPROM_OF ==>
                hw.mem == old(hw.mem) && hw.pecr == old(hw.pecr) && hw.trace == old(hw.trace)
                && hw.keyPending == old(hw.keyPending)
      ensures rc == SEEPROM_OK ==>
                hw.mem == ApplyTiers(old(hw.mem), WriteTiers(start, startOffset, value, len))
                && hw.trace == old(hw.trace) + WriteTrace(start, startOffset, value, len)
                && hw.pecr == old(hw.pecr) | FLASH_PECR_PELOCK && !hw.keyPending
    {
      if Add32(Add32(start, startOffset), len) < Add32(start, len) {
        return SEEPROM_OF;
      }
      UnlockEEPROM(hw);
      WriteSplit(hw, startOffset, value, len);
      LockEEPROM(hw);
      UnlockThenLock(old(hw.pecr));
      WriteTraceAppend(old(hw.trace), start, startOffset, value, len);
      rc := SEEPROM_OK;
    }

    /** The body of write between unlock and lock: len is split into len4 words, len2
        half-words and a last byte; each tier runs if its count is not zero, and startOffset
        advances (as a uint16_t) after the 4- and 2-byte tiers that ran. The source pointers
        are the ones the code computes. */
    method WriteSplit(hw: Mcu, startOffset: u16, value: u32, len: u16)
      requires !hw.Locked()
      modifies hw`mem, hw`trace
      ensures hw.mem == ApplyTiers(old(hw.mem), WriteTiers(start, startOffset, value, len))
      ensures hw.trace == old(hw.trace) + TiersTrace(WriteTiers(start, startOffset, value, len))
    {
      var n: u16 := len;
      var len4: u16 := n / 4;
      n := n % 4;
      var len2: u16 := n / 2;
      n := n % 2;

      assert len4 == len / 4 && len2 == len % 4 / 2 && n == len % 4 % 2;

      var offset := startOffset;
      ghost var a := IfCount(Add32(start, offset), value, 4, len4);
      WriteTier(hw, Add32(start, offset), value, 4, len4);
      if len4 != 0 {
        offset := Add16(offset, len4 * 4);
      }
      assert offset == Offset2(startOffset, len);
      ghost var b := IfCount(Add32(start, offset), Add32(value, 2 * (offset as int)), 2, len2);
      WriteTier(hw, Add32(start, offset), Add32(value, 2 * (offset as int)), 2, len2);
      ApplyTiersAppend(old(hw.mem), a, b);
      TiersTraceAppend(a, b);
      AppendAssoc(old(hw.trace), TiersTrace(a), TiersTrace(b));
      if len2 != 0 {
        offset := Add16(offset, len2 * 2);
      }
      assert offset == Offset1(startOffset, len);
      ghost var c := IfCount(Add32(start, offset), Add32(value, offset), 1, n);
      WriteTier(hw, Add32(start, offset), Add32(value, offset), 1, n);

      ApplyTiersAppend(old(hw.mem), a + b, c);
      TiersTraceAppend(a + b, c);
      AppendAssoc(old(hw.trace), TiersTrace(a + b), TiersTrace(c));
      assert a + b + c == WriteTiers(start, startOffset, value, len);
    }

    /** `if (count) write<T>(dst, src, count);` */
    method WriteTier(hw: Mcu, dst: u32, src: u32, width: Width, count: u16)
      requires !hw.Locked()
      modifies hw`mem, hw`trace
      ensures hw.mem == ApplyTiers(old(hw.mem), IfCount(dst, src, width, count))
      ensures hw.trace == old(hw.trace) + TiersTrace(IfCount(dst, src, width, count))
    {
      if count != 0 {
        WriteElements(hw, dst, src, width, count);
        ghost var t := [Tier(dst, src, width, count)];
        assert ApplyTiers(old(hw.mem), t) == ApplyTiers(hw.mem, t[1..]);
        assert TiersTrace(t) == ElementsTrace(dst, width, count) + TiersTrace(t[1..]);
      }
    }

    /** Alignment test, bounds test on len words, unlock, set ERASE, the word loop, clear
        ERASE, lock. */
    method Erase(hw: Mcu, startOffset: u16, len: u16) returns (rc: u8)
      modifies hw`mem, hw`pecr, hw`keyPending, hw`trace
      ensures rc == if startOffset % 4 != 0 then SEEPROM_NOK
                    else if OverflowTest(start, startOffset, len * 4) then SEEPROM_OF
                    else SEEPROM_OK
      ensures rc != SEEPROM_OK ==>
                hw.mem == old(hw.mem) && hw.pecr == old(hw.pecr) && hw.trace == old(hw.trace)
                && hw.keyPending == old(hw.keyPending)
      ensures rc == SEEPROM_OK ==>
                hw.mem == FillWords(old(hw.mem), Add32(start, startOffset), Iterations(len))
                && hw.trace == old(hw.trace) + EraseTrace(Add32(start, startOffset), Iterations(len))
                && hw.pecr == (old(hw.pecr) & !FLASH_PECR_ERASE) | FLASH_PECR_PELOCK && !hw.keyPending
    {
      if startOffset % 4 != 0 {
        return SEEPROM_NOK;
      }
      if Add32(Add32(start, startOffset), len * 4) < Add32(start, len * 4) {
        return SEEPROM_OF;
      }
      var addr := Add32(start, startOffset);
      UnlockEEPROM(hw);
      hw.SetPecrBits(FLASH_PECR_ERASE);
      EraseBits(old(hw.pecr));
      EraseWords(hw, addr, len);
      hw.ClearPecrBits(FLASH_PECR_ERASE);
      LockEEPROM(hw);
      EraseTraceAppend(old(hw.trace), addr, Iterations(len));
      rc := SEEPROM_OK;
    }

    /** The body of erase's loop: `addr[idx] = 0x00;` (a word store that the controller, with
        ERASE set, performs as an erase), then `__WFI()`. */
    method EraseWord(hw: Mcu, word: u32)
      requires !hw.Locked()
      modifies hw`mem, hw`trace
      ensures hw.mem == StoreBytes(old(hw.mem), word, [0, 0, 0, 0])
      ensures hw.trace == old(hw.trace) + [Store(word, 4), Wfi]
    {
      hw.Program(word, [0, 0, 0, 0]);
      hw.WaitForInterrupt();
    }

    /** The word loop of erase: for each idx, a store of 0 to the word `addr[idx]`, then
        `__WFI()` to sleep until the erase cycle ends. As in read, a zero len makes the
        do-while run 65536 times. The ERASE bit is set and the EEPROM unlocked. */
    method EraseWords(hw: Mcu, addr: u32, len: u16)
      requires !hw.Locked()
      modifies hw`mem, hw`trace
      ensures hw.mem == FillWords(old(hw.mem), addr, Iterations(len))
      ensures hw.trace == old(hw.trace) + EraseWordsTrace(addr, Iterations(len))
    {
      var idx: u16 := 0;
      ghost var count := 0;
      ghost var word := addr;
      var more := true;
      while more
        invariant count <= Iterations(len) && idx == if count == U16_RANGE then 0 else count
        invariant more <==> count < Iterations(len)
        invariant word == Add32(addr, 4 * count)
        invariant FillWords(hw.mem, word, Iterations(len) - count) == FillWords(old(hw.mem), addr, Iterations(len))
        invariant old(hw.trace) + EraseWordsTrace(addr, Iterations(len))
                  == hw.trace + EraseWordsTrace(word, Iterations(len) - count)
        decreases Iterations(len) - count
      {
        ghost var before, m := hw.trace, hw.mem;
        assert idx == count;
        EraseWord(hw, Add32(addr, 4 * idx));
        FillStep(old(hw.mem), m, hw.mem, addr, word, Iterations(len), Iterations(len) - count);
        EraseWordsStep(old(hw.trace), before, hw.trace, addr, word, Iterations(len), Iterations(len) - count);
        ElementAddressStep(addr, 4, count);
        word := Add32(word, 4);
        idx := Inc16(idx);
        count := count + 1;
        more := idx != len;
      }
    }
  }
}

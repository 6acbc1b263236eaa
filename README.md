# sEEPROM in Dafny

sEEPROM is a small C++ driver for the data EEPROM of the STM32L051. An `sEEPROM` object
names a region by its start address and its length. It offers three operations on that
region:

- `read` copies bytes out of the EEPROM;
- `write` stores bytes into it, with 4-byte words first, then at most one half-word, then at most one byte;
- `erase` zeroes whole words.

Every store happens between an unlock of the EEPROM (a wait for BSY, then the two PEKEYR keys) and a
lock (a wait for BSY, then PELOCK set in PECR).

This project models that driver and proves what it does:

- `defs.dfy` (module `Defs`): fixed-width integers and the wrap-around of `uint32_t` and `uint16_t`
  arithmetic (`Add32`, `Add16`, `Inc16`), the return codes, the region and key constants and the
  PECR bits.
- `flash.dfy` (module `Flash`): the flash interface the driver talks to. `Mcu` is a class whose
  fields are the 4 GiB byte memory, PECR, whether the first key has been written, and a ghost
  trace of events (BSY wait, key write, PECR set or clear, store, wait for interrupt). A store
  while PELOCK is set does nothing.
- `plan.dfy` (module `Plan`): the functions that specify the driver.
  - `OverflowTest` is the bounds test exactly as the code computes it.
  - `Iterations` is how often a `do … while (idx != len)` over a `uint16_t` index runs.
  - `WriteTiers` is the 4/2/1-byte split of `write` with the source addresses the code computes.
    `IntendedTiers` is the same split with the source addresses the documentation describes.
  - `CopyElements`, `ApplyTiers` and `FillWords` give the memory effect.
  - `UnlockTrace`, `LockTrace`, `ElementsTrace`, `WriteTrace` and `EraseTrace` give the event sequences.
- `driver.dfy` (module `Driver`): class `SEEPROM` with the fields `start` and `length`, the
  constructor and destructor, and `Read`, `Write`, `Erase` and the unlock and lock helpers.
  These are imperative methods with the source's do-while loops. Each is proved against the
  functions of `Plan`, including the wrap-around of the loop index and of the addresses.
- `contents.dfy` (module `Contents`): what those functions do to memory, stated as copies and fills
  of byte ranges. It covers the write–read round trip and the cases where the tiered write copies the
  caller's buffer faithfully and where it does not.
- `protocol.dfy` (module `Protocol`): the bounds test, the shape of the tier split, the cells
  the stores cover, and the order of controller events in write and erase.

The driver methods model the code as written, including its two defects described under
"## Findings". They also keep the zero-length case exactly: `read` and `erase` with `len == 0`
run their loop body 65536 times, as the code does, and no precondition excludes it.

Where the code and the documentation comments disagree, the model follows the code:

- read and write never consult `length`. `read(2046, out, 4)` on a 2048-byte region therefore
  returns `SEEPROM_OK` (`Protocol.OverflowTestIgnoresLength`).
- The comment on `erase` says it returns `SEEPROM_NOK` when `len` is not aligned. The code
  tests `startOffset % 4`, and so does `Driver.SEEPROM.Erase`.

## Model

| member | source | states |
|---|---|---|
| Defs.ConstantsConsistent | sEEPROM.h:56-67 | The return codes NOK, OK and OF are pairwise distinct. SEEPROM_END is SEEPROM_START + SEEPROM_SIZE. The two PEKEY values differ. PELOCK and ERASE are distinct PECR bits. |
| Defs.UnlockThenLock | sEEPROM.h:171-203 | Unlocking (which clears PELOCK) and then locking leaves PECR equal to the old PECR with PELOCK set. |
| Defs.EraseBits | sEEPROM.cpp:123-145 | The PECR sequence of erase (unlock, set ERASE, clear ERASE, lock) ends with ERASE clear and PELOCK set, and leaves every other bit as it was. PELOCK is clear while ERASE is set. |
| Driver.SEEPROM.constructor | sEEPROM.cpp:34-38 | The new object's start and length are the arguments. |
| Driver.SEEPROM.Destroy | sEEPROM.cpp:40-44 | The destructor sets start and length to 0. |
| Driver.SEEPROM.UnlockEEPROM | sEEPROM.h:171-179 | Records one BSY wait, then a write of PEKEY_VALUE_1, then a write of PEKEY_VALUE_2. Afterwards PELOCK is clear, the other PECR bits are unchanged and no key is pending. |
| Driver.SEEPROM.UnlockPECR | sEEPROM.h:186-189 | Same effect and the same events as UnlockEEPROM. |
| Driver.SEEPROM.LockEEPROM | sEEPROM.h:196-203 | Records one BSY wait and one PECR set. PECR becomes the old PECR with PELOCK ORed in, and the other bits are unchanged. |
| Driver.SEEPROM.LockPECR | sEEPROM.h:210-213 | Same effect and the same events as LockEEPROM. |
| Driver.SEEPROM.WriteElements | sEEPROM.h:147-164 | The template element loop, for len >= 1. Element i of width sizeof(T) is copied from value + i*width to startAddr + i*width, in increasing i, with addresses wrapping at 2^32. Each store is preceded by a BSY wait. |
| Driver.SEEPROM.WriteElement | sEEPROM.h:155-158 | One loop step: a BSY wait, then a store of `width` bytes loaded from the source address. |
| Driver.SEEPROM.Read | sEEPROM.cpp:47-66 | Returns OF exactly when OverflowTest holds, and then changes nothing. Otherwise it returns OK and memory becomes the byte copy from start + startOffset to output, repeated Iterations(len) times (65536 when len is 0). PECR, keys and trace are untouched. |
| Driver.SEEPROM.Write | sEEPROM.cpp:68-109 | Returns OF exactly when OverflowTest holds, and then changes nothing: no unlock, no store, no lock. Otherwise it returns OK. Memory becomes ApplyTiers of WriteTiers, the trace gains unlock + tier stores + lock, and PECR ends with PELOCK set. |
| Driver.SEEPROM.WriteSplit | sEEPROM.cpp:77-103 | The computation of len4, len2 and len1 and the three guarded tier calls, with startOffset advanced in uint16_t arithmetic. The effect and events are exactly those of WriteTiers. |
| Driver.SEEPROM.WriteTier | sEEPROM.cpp:85-103 | An `if (count)` guarded tier call: nothing when count is 0, otherwise the element loop. |
| Driver.SEEPROM.Erase | sEEPROM.cpp:111-148 | Returns NOK when startOffset % 4 != 0. Otherwise it returns OF when OverflowTest on len*4 holds. In both cases nothing changes. Otherwise it returns OK: memory gets Iterations(len) zero words from start + startOffset, the trace is EraseTrace, and PECR ends with ERASE clear and PELOCK set. |
| Driver.SEEPROM.EraseWords | sEEPROM.cpp:119-139 | The do-while word loop: Iterations(len) word stores of zero at consecutive words, each followed by a wait for interrupt. |
| Driver.SEEPROM.EraseWord | sEEPROM.cpp:131-134 | One loop step: a 4-byte store of zero, then a wait for interrupt. |
| Plan.OverflowTest | sEEPROM.cpp:50 | The test `(start+startOffset+n) < (start+n)` in uint32_t holds exactly when (start + n mod 2^32) + startOffset reaches 2^32. |
| Plan.Iterations | sEEPROM.cpp:52-63 | A do-while over a uint16_t index that stops at `idx == len` runs n times. n lies in 1..65536, n mod 65536 == len, and no smaller positive count reaches len. |
| Contents.CopyElementsIsCopy | sEEPROM.h:147-164 | Without wrap or overlap, the element loop over count elements of width w is a byte copy of w*count bytes, and no other cell changes. |
| Contents.FillWordsIsFill | sEEPROM.cpp:128-139 | Without wrap, count word stores of zero zero exactly the 4*count bytes from addr, and no other cell changes. |
| Contents.ReadCopies | sEEPROM.cpp:52-63 | For len >= 1 without wrap or overlap, read copies exactly bytes start+off .. start+off+len-1 to output[0..len), and nothing else. |
| Contents.EraseZeroes | sEEPROM.cpp:119-139 | For len >= 1 without wrap, erase zeroes exactly the 4*len bytes from start + startOffset. |
| Contents.ZeroLengthReadCopiesAll | sEEPROM.cpp:52-63 | read with len == 0 copies 65536 bytes, so memory changes although no byte was asked for. |
| Contents.CountedReadCopies | sEEPROM.cpp:52-63 | A loop that tests before the body copies exactly len bytes, and none when len is 0. |
| Contents.IntendedWriteCopies | sEEPROM.cpp:77-103 | The tier split with the documented source addresses (value, value + 4*len4, value + 4*len4 + 2*len2) copies value[0..len) to start+off, for every len and offset without wrap or overlap. |
| Contents.WriteTiersAsIntended | sEEPROM.cpp:96-103 | When len % 4 == 0, or startOffset == 0 and len < 4, the source addresses the code computes are the documented ones. |
| Contents.AlignedWriteCopies | sEEPROM.cpp:77-103 | In those cases the write as coded copies value[0..len) to start+off and changes nothing else. |
| Contents.WriteTiersOfSix | sEEPROM.cpp:85-103 | write(0, value, 6) runs a one-word tier from value and a one-half-word tier from value + 8 (`(uint16_t*)value + 4`). |
| Contents.SourceIndexingCounterexample | sEEPROM.cpp:96 | After write(0, value, 6), EEPROM byte start+4 holds value[8] and not value[4]. |
| Contents.WriteThenRead | sEEPROM.cpp:47-109 | Round trip: in the cases where the write copies faithfully, a read of the same range returns exactly the bytes written. |
| Protocol.OverflowTestIgnoresLength | sEEPROM.cpp:50 | On the default 2048-byte region, read/write(2046, …, 4) runs past the end and is still accepted. |
| Protocol.OverflowTestMeansCrossing | sEEPROM.cpp:71 | For n below 2^18, the test rejects exactly when start + n stays below 2^32 and start + n + startOffset does not. |
| Protocol.OverflowTestMissesWrappedLength | sEEPROM.cpp:117 | An access whose end wraps through start + n itself is not rejected. |
| Protocol.WithinRegionMeansInside | sEEPROM.h:96-116 | The documented bounds test (startOffset + n <= length) accepts exactly the accesses whose every address lies in [start, start + length). |
| Protocol.WithinRegionPassesOverflowTest | sEEPROM.cpp:50 | Every access the documented test accepts is also accepted by the code's test, so the code's test is the weaker of the two. |
| Protocol.WriteTiersShape | sEEPROM.cpp:77-103 | The tiers cover len bytes in total. There are at most three tiers, none exactly when len == 0, and they run with widths in the order 4, 2, 1. The 2- and 1-byte tiers have one element each. |
| Protocol.ThreeBytesAtTen | sEEPROM.cpp:94-103 | write(10, value, 3) stores 2 bytes at start+10 from value+20, then 1 byte at start+12 from value+12, each after a BSY wait. |
| Protocol.WriteAndIntendedStoreAlike | sEEPROM.cpp:87-103 | The coded and the documented split make the same stores, at the same addresses and widths; only their sources differ. |
| Protocol.WriteStoresCoverRange | sEEPROM.cpp:87-103 | Without wrap, the cells the tier stores touch are start+off, start+off+1, …, start+off+len-1, each once, in increasing order. |
| Protocol.WriteTraceDiscipline | sEEPROM.cpp:74-106 | A write that passes the test makes exactly one unlock, before the first store, and exactly one lock, after the last. Between them there are only stores, each directly after a BSY wait. With len == 0 the unlock is followed directly by the lock. |
| Protocol.EmptyWrite | sEEPROM.cpp:74-106 | write with len == 0 is unlock followed by lock, with no store. |
| Protocol.EraseWordsOrder | sEEPROM.cpp:128-139 | Position 2i of the word loop's events is the 4-byte store to start+off+4i, and position 2i+1 is a wait for interrupt. |
| Protocol.EraseTwoWordsAtFour | sEEPROM.cpp:119-147 | erase(4, 2) is unlock, ERASE set, store at start+4, WFI, store at start+8, WFI, ERASE clear, lock. |
| Protocol.EraseTraceFrame | sEEPROM.cpp:123-145 | erase's events are unlock, then ERASE set, then the word loop, then ERASE clear, then lock, and nothing else. |

## Left out

- Timing of the `while (FLASH->SR & FLASH_SR_BSY)` spins and of `__WFI()`: each is one trace event that is assumed to finish. Interrupts are not modelled.
- Coordination between several `sEEPROM` objects and re-entrancy from interrupts: the driver has none, and the model is sequential.
- Unaligned-access faults of the Cortex-M0+ (a word store at an address that is not a multiple of 4): a store of any width at any address is a byte copy.
- The controller's reaction to a wrong key sequence (PEKEYR locked until reset) and to a store while PELOCK is set (error flags): the mock forgets a pending first key on any other write, and ignores the store.
- The erase performed by a zero store while ERASE is set is modelled as that zero store.
- Chip selection (`#ifdef STM32L051xx`, `#warning`) and the CMSIS register header: compile-time configuration; the PECR bits and keys are constants in `Defs`.
- Integer-to-pointer casts: addresses are `u32` values into one byte memory. `value` and `output` are addresses in that same memory.
- Driver.SEEPROM.WriteSplit, Driver.SEEPROM.WriteTier, Driver.SEEPROM.WriteElement, Driver.SEEPROM.EraseWords, Driver.SEEPROM.EraseWord: these split code that the source writes inline in `write` and `erase`; they are not functions of the source.
- Contents.CopyElementsIsCopy, Contents.ReadCopies, Contents.EraseZeroes, Contents.AlignedWriteCopies, Contents.IntendedWriteCopies, Contents.WriteThenRead: stated only for ranges that do not wrap past 2^32 and buffers that do not overlap the EEPROM range. The driver methods' own contracts cover wrapping and overlap exactly, through `CopyElements` and `FillWords`.
- Protocol.WriteStoresCoverRange: stated only when neither the addresses nor startOffset + len wrap.
- Protocol.OverflowTestMeansCrossing: stated for n below 2^18, which covers every n the driver passes (len, or len*4 in erase).

## Findings

| source | as written | input that shows it | evidently intended | confidence | as-written member | corrected member |
|---|---|---|---|---|---|---|
| sEEPROM.cpp:96 | The 2-byte tier reads from `(uint16_t*)value + startOffset`, which is byte 2*startOffset of the buffer. startOffset at that point already includes the EEPROM offset and the 4-byte tier. The 1-byte tier (line 103) reads from byte startOffset likewise. | write(0, value, 6) with value[4] != value[8]: EEPROM byte start+4 receives value[8]. | The tiers read from value, value + 4*len4 and value + 4*len4 + 2*len2. | high; not executed | Contents.SourceIndexingCounterexample | Contents.IntendedWriteCopies |
| sEEPROM.cpp:50 | `(start + startOffset + len) < (start + len)` only detects the end wrapping past 2^32. `length` is never read; the same test is at lines 71 and 117. | A region of length 2048 at 0x08080000: read(2046, out, 4) returns SEEPROM_OK. | SEEPROM_OF whenever startOffset + len > length, as the comments at sEEPROM.h:102 and sEEPROM.h:113 describe. | high; not executed | Protocol.OverflowTestIgnoresLength | Protocol.WithinRegionMeansInside |
| sEEPROM.cpp:52-63 | A do-while over a `uint16_t` index that tests `idx != len` after the body. With len == 0 it copies 65536 bytes; erase (lines 128-139) likewise zeroes 65536 words. | read(0, out, 0) with out[0] different from EEPROM byte start. | len == 0 copies or erases nothing. | high; not executed | Contents.ZeroLengthReadCopiesAll | Contents.CountedReadCopies |

The driver methods keep the behaviour as written. The corrected members (`Plan.IntendedTiers`,
`Protocol.WithinRegion`, and a counted loop, `CopyElements` with `len` iterations) stand beside
them with their intended properties proved.

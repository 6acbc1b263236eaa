/** What read, write and erase do, as functions of their inputs: the bounds test, the number of
    passes of a do-while over a uint16_t index, the tiers write splits a request into, the
    effect of each operation on memory and the events each one issues to the flash interface. */
module Plan {
  import opened Defs
  import opened Flash

  /** The bounds test of read and write (`start + startOffset + n < start + n` on uint32_t),
      which erase also applies with n = 4 * len. It only notices that the end address wraps
      past 2^32; the region's length plays no part in it. */
  function OverflowTest(start: u32, offset: u16, n: u32): (overflows: bool)
    ensures overflows <==> Add32(start, n) + offset >= ADDRESS_SPACE
  {
    Add32(Add32(start, offset), n) < Add32(start, n)
  }

  /** How many times the body of `do { ...; idx++; } while (idx != len);` runs with a
      uint16_t idx starting at 0: the first count at which idx, wrapping at 2^16, equals len. */
  function Iterations(len: u16): (n: nat)
    ensures 1 <= n <= U16_RANGE && n % U16_RANGE == len
    ensures forall k | 1 <= k < n :: k % U16_RANGE != len
  {
    if len == 0 then U16_RANGE else len
  }

  /** One call of the template write: `count` elements of `width` bytes from `src` to `dst`. */
  datatype Tier = Tier(dst: u32, src: u32, width: Width, count: u16)

  /** The value of startOffset when the 2-byte tier runs (after `startOffset += len4 * 4`). */
  function Offset2(offset: u16, len: u16): u16
  {
    if len / 4 != 0 then Add16(offset, len / 4 * 4) else offset
  }

  /** The value of startOffset when the 1-byte tier runs (after `startOffset += len2 * 2`). */
  function Offset1(offset: u16, len: u16): u16
  {
    if len % 4 / 2 != 0 then Add16(Offset2(offset, len), len % 4 / 2 * 2) else Offset2(offset, len)
  }

  /** `if (count) write<T>(dst, src, count);`: the tier runs only when its count is not zero. */
  function IfCount(dst: u32, src: u32, width: Width, count: u16): seq<Tier>
  {
    if count != 0 then [Tier(dst, src, width, count)] else []
  }

  /** The tiers that run, in order: 4-byte, then 2-byte, then 1-byte, each only when its count
      is not zero. Destinations are `start + startOffset` with startOffset as updated between
      the tiers; the sources are given. */
  function TierPlan(start: u32, offset: u16, len: u16, src4: u32, src2: u32, src1: u32): seq<Tier>
  {
    IfCount(Add32(start, offset), src4, 4, len / 4)
    + IfCount(Add32(start, Offset2(offset, len)), src2, 2, len % 4 / 2)
    + IfCount(Add32(start, Offset1(offset, len)), src1, 1, len % 4 % 2)
  }

  /** The tiers of the public write as written: the 2-byte tier reads from
      `(uint16_t*)value + startOffset` and the 1-byte tier from `(uint8_t*)value + startOffset`,
      that is, from offsets derived from the destination offset rather than from the bytes
      already consumed. */
  function WriteTiers(start: u32, offset: u16, value: u32, len: u16): seq<Tier>
  {
    TierPlan(start, offset, len, value, Add32(value, 2 * Offset2(offset, len)), Add32(value, Offset1(offset, len)))
  }

  /** The tiers with the sources the decomposition evidently means: each tier continues in the
      buffer where the previous one stopped. */
  function IntendedTiers(start: u32, offset: u16, value: u32, len: u16): seq<Tier>
  {
    TierPlan(start, offset, len, value, Add32(value, len / 4 * 4), Add32(value, len / 4 * 4 + len % 4 / 2 * 2))
  }

  /** Number of bytes the tiers store. */
  function Bytes(tiers: seq<Tier>): nat
  {
    if tiers == [] then 0 else tiers[0].width * tiers[0].count + Bytes(tiers[1..])
  }

  lemma {:induction false} BytesAppend(a: seq<Tier>, b: seq<Tier>)
    ensures Bytes(a + b) == Bytes(a) + Bytes(b)
    decreases |a|
  {
    if a == [] {
      assert a + b == b;
    } else {
      assert (a + b)[1..] == a[1..] + b;
      BytesAppend(a[1..], b);
    }
  }

  lemma BytesIfCount(dst: u32, src: u32, width: Width, count: u16)
    ensures Bytes(IfCount(dst, src, width, count)) == width * count
  {
    if count != 0 {
      assert IfCount(dst, src, width, count)[1..] == [];
    }
  }

  // ----- Effect on memory

  /** `count` element copies, each loading `width` bytes at src and storing them at dst, one
      after the other (so an overlap of source and destination is honoured). */
  function CopyElements(m: Memory, dst: u32, src: u32, width: Width, count: nat): Memory
    decreases count
  {
    if count == 0 then m
    else CopyElements(StoreBytes(m, dst, LoadBytes(m, src, width)), Add32(dst, width), Add32(src, width), width, count - 1)
  }

  /** One more element copied: the copies still to come lose their first element. */
  lemma CopyStep(m0: Memory, m: Memory, m': Memory, first: u32, firstSrc: u32, dst: u32, src: u32,
                 width: Width, count: nat, left: nat)
    requires left >= 1
    requires CopyElements(m, dst, src, width, left) == CopyElements(m0, first, firstSrc, width, count)
    requires m' == StoreBytes(m, dst, LoadBytes(m, src, width))
    ensures CopyElements(m', Add32(dst, width), Add32(src, width), width, left - 1)
            == CopyElements(m0, first, firstSrc, width, count)
  {
  }

  function ApplyTiers(m: Memory, tiers: seq<Tier>): Memory
    decreases |tiers|
  {
    if tiers == [] then m
    else ApplyTiers(CopyElements(m, tiers[0].dst, tiers[0].src, tiers[0].width, tiers[0].count), tiers[1..])
  }

  /** Applying two tier lists one after the other is applying their concatenation. */
  lemma {:induction false} ApplyTiersAppend(m: Memory, a: seq<Tier>, b: seq<Tier>)
    ensures ApplyTiers(m, a + b) == ApplyTiers(ApplyTiers(m, a), b)
    decreases |a|
  {
    if a == [] {
      assert a + b == b;
    } else {
      assert (a + b)[1..] == a[1..] + b;
      ApplyTiersAppend(CopyElements(m, a[0].dst, a[0].src, a[0].width, a[0].count), a[1..], b);
    }
  }

  /** `count` word stores of zero at addr, addr + 4, ... */
  function FillWords(m: Memory, addr: u32, count: nat): Memory
    decreases count
  {
    if count == 0 then m
    else FillWords(StoreBytes(m, addr, [0, 0, 0, 0]), Add32(addr, 4), count - 1)
  }

  /** One more word erased: the stores still to come lose their first word. */
  lemma FillStep(m0: Memory, m: Memory, m': Memory, first: u32, addr: u32, count: nat, left: nat)
    requires left >= 1
    requires FillWords(m, addr, left) == FillWords(m0, first, count)
    requires m' == StoreBytes(m, addr, [0, 0, 0, 0])
    ensures FillWords(m', Add32(addr, 4), left - 1) == FillWords(m0, first, count)
  {
  }

  // ----- Events issued to the flash interface

  function UnlockTrace(): seq<Event>
  {
    [BusyWait, KeyWrite(PEKEY_VALUE_1), KeyWrite(PEKEY_VALUE_2)]
  }

  function LockTrace(): seq<Event>
  {
    [BusyWait, PecrSet(FLASH_PECR_PELOCK)]
  }

  function ElementsTrace(dst: u32, width: Width, count: nat): seq<Event>
    decreases count
  {
    if count == 0 then []
    else [BusyWait, Store(dst, width)] + ElementsTrace(Add32(dst, width), width, count - 1)
  }

  /** One more element of a template write: the events still to come lose their first pair. */
  lemma ElementsStep(t0: seq<Event>, t: seq<Event>, t': seq<Event>, first: u32, dst: u32, width: Width, count: nat, left: nat)
    requires left >= 1
    requires t0 + ElementsTrace(first, width, count) == t + ElementsTrace(dst, width, left)
    requires t' == t + [BusyWait, Store(dst, width)]
    ensures t0 + ElementsTrace(first, width, count) == t' + ElementsTrace(Add32(dst, width), width, left - 1)
  {
    assert ElementsTrace(dst, width, left) == [BusyWait, Store(dst, width)] + ElementsTrace(Add32(dst, width), width, left - 1);
  }

  function TiersTrace(tiers: seq<Tier>): seq<Event>
    decreases |tiers|
  {
    if tiers == [] then []
    else ElementsTrace(tiers[0].dst, tiers[0].width, tiers[0].count) + TiersTrace(tiers[1..])
  }

  lemma AppendAssoc<T>(x: seq<T>, y: seq<T>, z: seq<T>)
    ensures (x + y) + z == x + (y + z)
  {
  }

  lemma {:induction false} TiersTraceAppend(a: seq<Tier>, b: seq<Tier>)
    ensures TiersTrace(a + b) == TiersTrace(a) + TiersTrace(b)
    decreases |a|
  {
    if a == [] {
      assert a + b == b;
    } else {
      assert (a + b)[1..] == a[1..] + b;
      TiersTraceAppend(a[1..], b);
    }
  }

  function WriteTrace(start: u32, offset: u16, value: u32, len: u16): seq<Event>
  {
    UnlockTrace() + TiersTrace(WriteTiers(start, offset, value, len)) + LockTrace()
  }

  /** The write's events, appended to what came before, group as unlock, tiers, lock. */
  lemma WriteTraceAppend(t: seq<Event>, start: u32, offset: u16, value: u32, len: u16)
    ensures t + WriteTrace(start, offset, value, len)
            == t + UnlockTrace() + TiersTrace(WriteTiers(start, offset, value, len)) + LockTrace()
  {
  }

  function EraseWordsTrace(addr: u32, count: nat): seq<Event>
    decreases count
  {
    if count == 0 then []
    else [Store(addr, 4), Wfi] + EraseWordsTrace(Add32(addr, 4), count - 1)
  }

  /** One more word erased: the events still to come lose their first pair. */
  lemma EraseWordsStep(t0: seq<Event>, t: seq<Event>, t': seq<Event>, first: u32, addr: u32, count: nat, left: nat)
    requires left >= 1
    requires t0 + EraseWordsTrace(first, count) == t + EraseWordsTrace(addr, left)
    requires t' == t + [Store(addr, 4), Wfi]
    ensures t0 + EraseWordsTrace(first, count) == t' + EraseWordsTrace(Add32(addr, 4), left - 1)
  {
    assert EraseWordsTrace(addr, left) == [Store(addr, 4), Wfi] + EraseWordsTrace(Add32(addr, 4), left - 1);
  }

  function EraseTrace(addr: u32, count: nat): seq<Event>
  {
    UnlockTrace() + [PecrSet(FLASH_PECR_ERASE)] + EraseWordsTrace(addr, count)
    + [PecrClear(FLASH_PECR_ERASE)] + LockTrace()
  }

  /** The erase's events, appended to what came before, group as unlock, ERASE set, words,
      ERASE cleared, lock. */
  lemma EraseTraceAppend(t: seq<Event>, addr: u32, count: nat)
    ensures t + EraseTrace(addr, count)
            == t + UnlockTrace() + [PecrSet(FLASH_PECR_ERASE)] + EraseWordsTrace(addr, count)
               + [PecrClear(FLASH_PECR_ERASE)] + LockTrace()
  {
  }

  /** The cells one store of `width` bytes at `addr` touches. */
  function StoreCells(addr: u32, width: Width): seq<u32>
  {
    seq(width, j requires 0 <= j < width => Add32(addr, j))
  }

  /** The cells the stores of a trace touch, in the order they are stored. */
  function Cells(t: seq<Event>): seq<u32>
    decreases |t|
  {
    if t == [] then []
    else (if t[0].Store? then StoreCells(t[0].addr, t[0].width) else []) + Cells(t[1..])
  }

  /** The widths of the stores of a trace, in order. */
  function StoreWidths(t: seq<Event>): seq<Width>
    decreases |t|
  {
    if t == [] then []
    else (if t[0].Store? then [t[0].width] else []) + StoreWidths(t[1..])
  }
}

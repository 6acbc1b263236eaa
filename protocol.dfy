/** The shape of write's tier split, the bounds test, and the order of the events read, write
    and erase issue to the flash interface. */
module Protocol {
  import opened Defs
  import opened Flash
  import opened Plan
  import Contents

  // ----- The bounds test

  /** The test never looks at the region's length: on a 2048-byte region at the start of the
      data EEPROM, a 4-byte access at offset 2046 (two bytes past the end) is accepted. */
  lemma OverflowTestIgnoresLength()
    ensures 2046 + 4 > SEEPROM_SIZE && !OverflowTest(SEEPROM_START, 2046, 4)
  {
  }

  /** Reported overflow means exactly: start + n stays below 2^32 and adding startOffset
      crosses it. An access whose start + n already wraps passes the test. */
  lemma OverflowTestMeansCrossing(start: u32, offset: u16, n: u32)
    requires n < 4 * U16_RANGE
    ensures OverflowTest(start, offset, n) <==> start + n < ADDRESS_SPACE <= start + n + offset
  {
  }

  lemma OverflowTestMissesWrappedLength()
    ensures 0xFFFF_FFF0 + 0 + 0x20 >= ADDRESS_SPACE && !OverflowTest(0xFFFF_FFF0, 0, 0x20)
  {
  }

  /** The test the documentation of read and write describes: the n bytes at startOffset lie
      within the region's length. */
  function WithinRegion(length: u16, offset: u16, n: nat): (ok: bool)
  {
    offset + n <= length
  }

  /** For a region that does not wrap, the documented test accepts an access of n >= 1 bytes
      exactly when every address it touches lies in [start, start + length). */
  lemma WithinRegionMeansInside(start: u32, length: u16, offset: u16, n: nat)
    requires start + length < ADDRESS_SPACE && 1 <= n <= 4 * U16_RANGE
    ensures WithinRegion(length, offset, n)
            <==> forall k | 0 <= k < n :: start <= Add32(Add32(start, offset), k) < start + length
  {
    if !WithinRegion(length, offset, n) {
      var k := n - 1;
      assert !(start <= Add32(Add32(start, offset), k) < start + length);
    }
  }

  /** The documented test is stricter than the one in the code: whatever it accepts, the code
      accepts too. */
  lemma WithinRegionPassesOverflowTest(start: u32, length: u16, offset: u16, n: u32)
    requires start + length < ADDRESS_SPACE && WithinRegion(length, offset, n)
    ensures !OverflowTest(start, offset, n)
  {
  }

  // ----- The tier split of write

  /** Widths strictly decrease along the list, no tier is empty, and the 2- and 1-byte tiers
      hold one element each. */
  predicate Descending(tiers: seq<Tier>)
  {
    && (forall i, j | 0 <= i < j < |tiers| :: tiers[i].width > tiers[j].width)
    && (forall i | 0 <= i < |tiers| :: tiers[i].count >= 1)
    && (forall i | 0 <= i < |tiers| :: tiers[i].width < 4 ==> tiers[i].count == 1)
  }

  lemma GuardedTiersDescend(t4: Tier, t2: Tier, t1: Tier)
    requires t4.width == 4 && t2.width == 2 && t1.width == 1 && t2.count <= 1 && t1.count <= 1
    ensures var tiers := IfCount(t4.dst, t4.src, 4, t4.count) + IfCount(t2.dst, t2.src, 2, t2.count)
                         + IfCount(t1.dst, t1.src, 1, t1.count);
            && Descending(tiers) && |tiers| <= 3
            && (tiers == [] <==> t4.count == 0 && t2.count == 0 && t1.count == 0)
  {
    var a := IfCount(t4.dst, t4.src, 4, t4.count);
    var b := IfCount(t2.dst, t2.src, 2, t2.count);
    var c := IfCount(t1.dst, t1.src, 1, t1.count);
    assert forall t | t in a + b + c :: t == t4 || t == t2 || t == t1;
    if t4.count != 0 {
      assert a + b + c == [t4] + b + c;
    }
  }

  /** The tiers of write: they store len bytes in all; they run in the order 4, 2, 1 with no
      width repeated; the 2- and 1-byte tiers have count 1; no tier has count 0; and no tier
      runs when len is 0. */
  lemma WriteTiersShape(start: u32, offset: u16, value: u32, len: u16)
    ensures var tiers := WriteTiers(start, offset, value, len);
            Bytes(tiers) == len && |tiers| <= 3 && (tiers == [] <==> len == 0) && Descending(tiers)
  {
    var t4 := Tier(Add32(start, offset), value, 4, len / 4);
    var t2 := Tier(Add32(start, Offset2(offset, len)), Add32(value, 2 * Offset2(offset, len)), 2, len % 4 / 2);
    var t1 := Tier(Add32(start, Offset1(offset, len)), Add32(value, Offset1(offset, len)), 1, len % 4 % 2);
    var a, b, c := IfCount(t4.dst, t4.src, 4, t4.count), IfCount(t2.dst, t2.src, 2, t2.count), IfCount(t1.dst, t1.src, 1, t1.count);
    assert WriteTiers(start, offset, value, len) == a + b + c;
    GuardedTiersDescend(t4, t2, t1);
    BytesIfCount(t4.dst, t4.src, 4, t4.count);
    BytesIfCount(t2.dst, t2.src, 2, t2.count);
    BytesIfCount(t1.dst, t1.src, 1, t1.count);
    BytesAppend(a, b);
    BytesAppend(a + b, c);
  }

  /** write(10, value, 3): a 2-byte tier to start + 10, read from `(uint16_t*)value + 10`
      (value + 20), then a 1-byte tier to start + 12, read from value + 12. */
  lemma ThreeBytesAtTen(start: u32, value: u32)
    requires start + 13 < ADDRESS_SPACE && value + 21 < ADDRESS_SPACE
    ensures WriteTiers(start, 10, value, 3) == [Tier(start + 10, value + 20, 2, 1), Tier(start + 12, value + 12, 1, 1)]
    ensures TiersTrace(WriteTiers(start, 10, value, 3)) == [BusyWait, Store(start + 10, 2), BusyWait, Store(start + 12, 1)]
  {
    assert Offset2(10, 3) == 10 && Offset1(10, 3) == 12;
    var t2, t1 := Tier(start + 10, value + 20, 2, 1), Tier(start + 12, value + 12, 1, 1);
    assert WriteTiers(start, 10, value, 3) == [t2] + [t1];
    TiersTraceAppend([t2], [t1]);
    assert [t2][1..] == [] && [t1][1..] == [];
    assert ElementsTrace(start + 12, 1, 1) == [BusyWait, Store(start + 12, 1)] + ElementsTrace(start + 13, 1, 0);
  }

  /** Two tier lists that store to the same places with the same widths and counts. */
  predicate SameStores(a: seq<Tier>, b: seq<Tier>)
  {
    |a| == |b| && forall i | 0 <= i < |a| :: a[i].dst == b[i].dst && a[i].width == b[i].width && a[i].count == b[i].count
  }

  lemma {:induction false} SameStoresSameTrace(a: seq<Tier>, b: seq<Tier>)
    requires SameStores(a, b)
    ensures TiersTrace(a) == TiersTrace(b)
    decreases |a|
  {
    if a != [] {
      SameStoresSameTrace(a[1..], b[1..]);
    }
  }

  /** Storing to a cell is the same whether the source is as written or as intended: the
      tiers differ only in where they read. */
  lemma WriteAndIntendedStoreAlike(start: u32, offset: u16, value: u32, len: u16)
    ensures TiersTrace(WriteTiers(start, offset, value, len)) == TiersTrace(IntendedTiers(start, offset, value, len))
  {
    var a, b := WriteTiers(start, offset, value, len), IntendedTiers(start, offset, value, len);
    assert SameStores(a, b);
    SameStoresSameTrace(a, b);
  }

  // ----- Cells stored

  lemma {:induction false} CellsAppend(a: seq<Event>, b: seq<Event>)
    ensures Cells(a + b) == Cells(a) + Cells(b)
    decreases |a|
  {
    if a == [] {
      assert a + b == b;
    } else {
      assert (a + b)[1..] == a[1..] + b;
      CellsAppend(a[1..], b);
    }
  }

  /** The template write stores exactly the cells dst, dst + 1, ..., dst + width * count - 1, in
      that order, when that range does not wrap. */
  lemma {:induction false} ElementsCells(dst: u32, width: Width, count: nat)
    requires dst + width * count < ADDRESS_SPACE
    ensures Cells(ElementsTrace(dst, width, count)) == seq(width * count, k => dst + k)
    decreases count
  {
    if count != 0 {
      var later := width * (count - 1);
      assert width * count == width + later;
      var pair: seq<Event> := [BusyWait, Store(dst, width)];
      var rest := ElementsTrace(dst + width, width, count - 1);
      assert ElementsTrace(dst, width, count) == pair + rest;
      ElementsCells(dst + width, width, count - 1);
      CellsAppend(pair, rest);
      PairCells(dst, width);
      RangeAppend(dst, width, later);
    }
  }

  lemma PairCells(dst: u32, width: Width)
    requires dst + width < ADDRESS_SPACE
    ensures Cells([BusyWait, Store(dst, width)]) == seq(width, k => dst + k)
  {
    var pair: seq<Event> := [BusyWait, Store(dst, width)];
    assert pair[1..][1..] == [];
    assert Cells(pair[1..]) == StoreCells(dst, width) + Cells([]);
    assert Cells(pair) == Cells(pair[1..]);
  }

  lemma RangeAppend(dst: int, a: nat, b: nat)
    ensures seq(a, k => dst + k) + seq(b, k => dst + a + k) == seq(a + b, k => dst + k)
  {
  }

  /** Chained tiers store exactly the cells of their destination range, in ascending order. */
  lemma {:induction false} ChainedCells(tiers: seq<Tier>, dst: u32, src: int)
    requires Contents.Chained(tiers, dst, src)
    requires dst + Bytes(tiers) < ADDRESS_SPACE
    ensures Cells(TiersTrace(tiers)) == seq(Bytes(tiers), k => dst + k)
    decreases |tiers|
  {
    if tiers != [] {
      var t := tiers[0];
      var n := t.width * t.count;
      var rest := Bytes(tiers[1..]);
      assert Bytes(tiers) == n + rest;
      assert Contents.Chained(tiers[1..], dst + n, src + n);
      assert TiersTrace(tiers) == ElementsTrace(dst, t.width, t.count) + TiersTrace(tiers[1..]);
      ElementsCells(dst, t.width, t.count);
      ChainedCells(tiers[1..], dst + n, src + n);
      CellsAppend(ElementsTrace(dst, t.width, t.count), TiersTrace(tiers[1..]));
      RangeAppend(dst, n, rest);
    }
  }

  /** The stores of write cover exactly [start + startOffset, start + startOffset + len), each
      cell once and in ascending order, when neither the address nor the uint16_t startOffset
      wraps. */
  lemma WriteStoresCoverRange(start: u32, offset: u16, value: u32, len: u16)
    requires start + offset + len < ADDRESS_SPACE && value + len < ADDRESS_SPACE
    requires offset + len < U16_RANGE
    ensures Cells(TiersTrace(WriteTiers(start, offset, value, len))) == seq(len, k => start + offset + k)
  {
    Contents.IntendedChained(start, offset, value, len);
    ChainedCells(IntendedTiers(start, offset, value, len), start + offset, value);
    WriteAndIntendedStoreAlike(start, offset, value, len);
  }

  // ----- Order of events

  /** Pairs of a busy-wait followed by a store. */
  predicate BusyStorePairs(t: seq<Event>)
    decreases |t|
  {
    t == [] || (|t| >= 2 && t[0] == BusyWait && t[1].Store? && BusyStorePairs(t[2..]))
  }

  lemma {:induction false} BusyStorePairsAppend(a: seq<Event>, b: seq<Event>)
    requires BusyStorePairs(a) && BusyStorePairs(b)
    ensures BusyStorePairs(a + b)
    decreases |a|
  {
    if a == [] {
      assert a + b == b;
    } else {
      assert (a + b)[2..] == a[2..] + b;
      BusyStorePairsAppend(a[2..], b);
    }
  }

  lemma {:induction false} ElementsPairs(dst: u32, width: Width, count: nat)
    ensures BusyStorePairs(ElementsTrace(dst, width, count))
    decreases count
  {
    if count != 0 {
      var t := ElementsTrace(dst, width, count);
      ElementsPairs(Add32(dst, width), width, count - 1);
      assert t[2..] == ElementsTrace(Add32(dst, width), width, count - 1);
    }
  }

  lemma {:induction false} TiersPairs(tiers: seq<Tier>)
    ensures BusyStorePairs(TiersTrace(tiers))
    decreases |tiers|
  {
    if tiers != [] {
      ElementsPairs(tiers[0].dst, tiers[0].width, tiers[0].count);
      TiersPairs(tiers[1..]);
      BusyStorePairsAppend(ElementsTrace(tiers[0].dst, tiers[0].width, tiers[0].count), TiersTrace(tiers[1..]));
    }
  }

  /** Every event of a run of pairs is a busy-wait or a store right after a busy-wait. */
  lemma {:induction false} PairsGuarded(t: seq<Event>)
    requires BusyStorePairs(t)
    ensures forall i | 0 <= i < |t| :: t[i] == BusyWait || (t[i].Store? && 0 < i && t[i - 1] == BusyWait)
    decreases |t|
  {
    if t != [] {
      PairsGuarded(t[2..]);
      forall i | 2 <= i < |t|
        ensures t[i] == BusyWait || (t[i].Store? && 0 < i && t[i - 1] == BusyWait)
      {
        assert t[i] == t[2..][i - 2];
        if i > 2 {
          assert t[i - 1] == t[2..][i - 3];
        }
      }
    }
  }

  /** Lock discipline of write: the unlock comes first and the lock last; between them there
      is no other access to PEKEYR or PECR, only stores, each right after a wait for BSY to
      clear; with len == 0 the unlock is followed directly by the lock. */
  lemma WriteTraceDiscipline(start: u32, offset: u16, value: u32, len: u16)
    ensures var mid := TiersTrace(WriteTiers(start, offset, value, len));
            && WriteTrace(start, offset, value, len) == UnlockTrace() + mid + LockTrace()
            && (forall i | 0 <= i < |mid| :: mid[i] == BusyWait || (mid[i].Store? && 0 < i && mid[i - 1] == BusyWait))
            && (len == 0 ==> WriteTrace(start, offset, value, len) == UnlockTrace() + LockTrace())
  {
    var tiers := WriteTiers(start, offset, value, len);
    TiersPairs(tiers);
    PairsGuarded(TiersTrace(tiers));
    if len == 0 {
      EmptyWrite(start, offset, value);
    }
  }

  /** write with len == 0 stores nothing: unlock, then lock. */
  lemma EmptyWrite(start: u32, offset: u16, value: u32)
    ensures WriteTrace(start, offset, value, 0) == UnlockTrace() + LockTrace()
  {
    var tiers := WriteTiers(start, offset, value, 0);
    assert tiers == [];
    assert TiersTrace(tiers) == [];
    assert UnlockTrace() + [] == UnlockTrace();
  }

  /** The word loop of erase: for word i (counting from 0), a store of 4 bytes at
      addr + 4 * i followed by a wait for interrupt, and nothing else. */
  lemma {:induction false} EraseWordsOrder(addr: u32, count: nat)
    requires count <= U16_RANGE
    ensures |EraseWordsTrace(addr, count)| == 2 * count
    ensures forall i | 0 <= i < |EraseWordsTrace(addr, count)| ::
              EraseWordsTrace(addr, count)[i] == if i % 2 == 0 then Store(Add32(addr, 4 * (i / 2)), 4) else Wfi
    decreases count
  {
    if count != 0 {
      var t := EraseWordsTrace(addr, count);
      var next := Add32(addr, 4);
      var rest := EraseWordsTrace(next, count - 1);
      EraseWordsOrder(next, count - 1);
      assert t == [Store(addr, 4), Wfi] + rest;
      forall i | 2 <= i < |t|
        ensures t[i] == if i % 2 == 0 then Store(Add32(addr, 4 * (i / 2)), 4) else Wfi
      {
        var h := (i - 2) / 2;
        assert t[i] == rest[i - 2];
        assert i / 2 == h + 1 && i % 2 == (i - 2) % 2;
        Add32Add32(addr, 4, 4 * h);
      }
    }
  }

  /** erase(4, 2): two word stores, at start + 4 and start + 8, each followed by a wait for
      interrupt, between setting and clearing ERASE. */
  lemma EraseTwoWordsAtFour(start: u32)
    requires start + 12 < ADDRESS_SPACE
    ensures EraseTrace(Add32(start, 4), Iterations(2))
            == UnlockTrace() + [PecrSet(FLASH_PECR_ERASE), Store(start + 4, 4), Wfi, Store(start + 8, 4), Wfi,
                                PecrClear(FLASH_PECR_ERASE)] + LockTrace()
  {
    assert EraseWordsTrace(start + 12, 0) == [];
    assert EraseWordsTrace(start + 8, 1) == [Store(start + 8, 4), Wfi];
    assert EraseWordsTrace(start + 4, 2) == [Store(start + 4, 4), Wfi, Store(start + 8, 4), Wfi];
  }

  /** The PECR sequence of erase: unlock, set ERASE, the word stores, clear ERASE, lock. PECR
      returns to its old value with ERASE cleared and PELOCK set. */
  lemma EraseTraceFrame(addr: u32, count: nat)
    ensures EraseTrace(addr, count)[..3] == UnlockTrace()
    ensures EraseTrace(addr, count)[3] == PecrSet(FLASH_PECR_ERASE)
    ensures EraseTrace(addr, count)[4..4 + |EraseWordsTrace(addr, count)|] == EraseWordsTrace(addr, count)
    ensures EraseTrace(addr, count)[4 + |EraseWordsTrace(addr, count)|..]
            == [PecrClear(FLASH_PECR_ERASE)] + LockTrace()
  {
    var w := EraseWordsTrace(addr, count);
    var t := EraseTrace(addr, count);
    assert t == UnlockTrace() + ([PecrSet(FLASH_PECR_ERASE)] + (w + ([PecrClear(FLASH_PECR_ERASE)] + LockTrace())));
  }
}

/** What the operations leave in memory, compared with plain block copies and fills. All the
    lemmas here are about accesses that do not wrap past the top of the address space. */
module Contents {
  import opened Defs
  import opened Flash
  import opened Plan

  /** The n bytes at src copied, all at once, to dst; every other cell unchanged. */
  function Copy(m: Memory, dst: u32, src: u32, n: nat): (r: Memory)
    requires dst + n < ADDRESS_SPACE && src + n < ADDRESS_SPACE
  {
    seq(ADDRESS_SPACE, i requires 0 <= i < ADDRESS_SPACE =>
      if dst <= i < dst + n then m[src + (i - dst)] else m[i])
  }

  /** The n bytes at addr set to zero; every other cell unchanged. */
  function Fill(m: Memory, addr: u32, n: nat): (r: Memory)
    requires addr + n < ADDRESS_SPACE
  {
    seq(ADDRESS_SPACE, i requires 0 <= i < ADDRESS_SPACE => if addr <= i < addr + n then 0 else m[i])
  }

  /** The ranges [dst, dst + n) and [src, src + n) do not overlap. */
  predicate Disjoint(dst: u32, src: u32, n: nat)
  {
    dst + n <= src || src + n <= dst
  }

  lemma CopyNothing(m: Memory, dst: u32, src: u32)
    ensures Copy(m, dst, src, 0) == m
  {
    assert forall i | 0 <= i < ADDRESS_SPACE :: Copy(m, dst, src, 0)[i] == m[i];
  }

  /** One element copy (load, then store) is a block copy of its width. */
  lemma StoreLoadIsCopy(m: Memory, dst: u32, src: u32, width: Width)
    requires dst + width < ADDRESS_SPACE && src + width < ADDRESS_SPACE
    ensures StoreBytes(m, dst, LoadBytes(m, src, width)) == Copy(m, dst, src, width)
  {
    var bytes := LoadBytes(m, src, width);
    forall i | 0 <= i < ADDRESS_SPACE
      ensures StoreBytes(m, dst, bytes)[i] == Copy(m, dst, src, width)[i]
    {
      if dst <= i < dst + width {
        assert Distance(dst, i) == i - dst;
      } else {
        assert Distance(dst, i) >= width;
      }
    }
  }

  /** Copying a bytes and then the next b bytes is copying a + b bytes, when the first copy
      does not overwrite the source of the second. */
  lemma CopyCompose(m: Memory, dst: u32, src: u32, a: nat, b: nat)
    requires dst + a + b < ADDRESS_SPACE && src + a + b < ADDRESS_SPACE
    requires Disjoint(dst, src, a + b)
    ensures Copy(Copy(m, dst, src, a), dst + a, src + a, b) == Copy(m, dst, src, a + b)
  {
    var m1 := Copy(m, dst, src, a);
    var dst', src' := dst + a, src + a;
    var r, r' := Copy(m1, dst', src', b), Copy(m, dst, src, a + b);
    forall i | 0 <= i < ADDRESS_SPACE
      ensures r[i] == r'[i]
    {
      if dst' <= i < dst' + b {
        assert m1[src' + (i - dst')] == m[src + (i - dst)];
      }
    }
  }

  lemma MulStep(width: nat, count: nat)
    requires count >= 1
    ensures width * count == width + width * (count - 1)
  {
  }

  /** The element copies of the template write, on ranges that neither wrap nor overlap, are
      one block copy of width * count bytes. */
  lemma {:induction false} CopyElementsIsCopy(m: Memory, dst: u32, src: u32, width: Width, count: nat)
    requires dst + width * count < ADDRESS_SPACE && src + width * count < ADDRESS_SPACE
    requires Disjoint(dst, src, width * count)
    ensures CopyElements(m, dst, src, width, count) == Copy(m, dst, src, width * count)
    decreases count
  {
    if count == 0 {
      CopyNothing(m, dst, src);
    } else {
      MulStep(width, count);
      var later := width * (count - 1);
      CopyFirstElement(m, dst, src, width, count);
      CopyElementsIsCopy(Copy(m, dst, src, width), dst + width, src + width, width, count - 1);
      CopyCompose(m, dst, src, width, later);
    }
  }

  /** The first element copy, taken out of the template write's copies. */
  lemma CopyFirstElement(m: Memory, dst: u32, src: u32, width: Width, count: nat)
    requires count >= 1 && dst + width < ADDRESS_SPACE && src + width < ADDRESS_SPACE
    ensures CopyElements(m, dst, src, width, count)
            == CopyElements(Copy(m, dst, src, width), dst + width, src + width, width, count - 1)
  {
    StoreLoadIsCopy(m, dst, src, width);
  }

  /** The word stores of erase, on a range that does not wrap, zero exactly 4 * count bytes. */
  lemma {:induction false} FillWordsIsFill(m: Memory, addr: u32, count: nat)
    requires addr + 4 * count < ADDRESS_SPACE
    ensures FillWords(m, addr, count) == Fill(m, addr, 4 * count)
    decreases count
  {
    if count == 0 {
      assert forall i | 0 <= i < ADDRESS_SPACE :: Fill(m, addr, 0)[i] == m[i];
    } else {
      var m1 := StoreBytes(m, addr, [0, 0, 0, 0]);
      forall i | 0 <= i < ADDRESS_SPACE
        ensures m1[i] == Fill(m, addr, 4)[i]
      {
        if addr <= i < addr + 4 {
          assert Distance(addr, i) == i - addr;
        } else {
          assert Distance(addr, i) >= 4;
        }
      }
      FillWordsIsFill(m1, addr + 4, count - 1);
      var r := Fill(m1, addr + 4, 4 * (count - 1));
      assert forall i | 0 <= i < ADDRESS_SPACE :: r[i] == Fill(m, addr, 4 * count)[i];
    }
  }

  /** Tiers that continue, in destination and in source, where the previous one stopped. */
  predicate Chained(tiers: seq<Tier>, dst: int, src: int)
    decreases |tiers|
  {
    tiers == []
    || (tiers[0].dst == dst && tiers[0].src == src
        && Chained(tiers[1..], dst + tiers[0].width * tiers[0].count, src + tiers[0].width * tiers[0].count))
  }

  /** Chained tiers over non-wrapping, non-overlapping ranges copy one block. */
  lemma {:induction false} ApplyChained(m: Memory, tiers: seq<Tier>, dst: u32, src: u32)
    requires Chained(tiers, dst, src)
    requires dst + Bytes(tiers) < ADDRESS_SPACE && src + Bytes(tiers) < ADDRESS_SPACE
    requires Disjoint(dst, src, Bytes(tiers))
    ensures ApplyTiers(m, tiers) == Copy(m, dst, src, Bytes(tiers))
    decreases |tiers|
  {
    if tiers == [] {
      CopyNothing(m, dst, src);
    } else {
      var t := tiers[0];
      var n := t.width * t.count;
      var rest := Bytes(tiers[1..]);
      assert Bytes(tiers) == n + rest;
      assert Chained(tiers[1..], dst + n, src + n);
      CopyElementsIsCopy(m, dst, src, t.width, t.count);
      var m1 := Copy(m, dst, src, n);
      assert ApplyTiers(m, tiers) == ApplyTiers(m1, tiers[1..]);
      ApplyChained(m1, tiers[1..], dst + n, src + n);
      CopyCompose(m, dst, src, n, rest);
    }
  }

  lemma {:induction false} ChainedAppend(a: seq<Tier>, b: seq<Tier>, dst: int, src: int)
    requires Chained(a, dst, src) && Chained(b, dst + Bytes(a), src + Bytes(a))
    ensures Chained(a + b, dst, src)
    decreases |a|
  {
    if a == [] {
      assert a + b == b;
    } else {
      var n := a[0].width * a[0].count;
      assert Bytes(a) == n + Bytes(a[1..]);
      ChainedAppend(a[1..], b, dst + n, src + n);
      assert (a + b)[1..] == a[1..] + b;
    }
  }

  lemma ChainedIfCount(dst: u32, src: u32, width: Width, count: u16)
    ensures Chained(IfCount(dst, src, width, count), dst, src)
  {
    if count != 0 {
      assert IfCount(dst, src, width, count)[1..] == [];
    }
  }

  /** Without wrap-around, the intended tiers start at start + startOffset and value and
      each continues where the previous one ended. */
  lemma IntendedTiersUnwrapped(start: u32, offset: u16, value: u32, len: u16)
    requires start + offset + len < ADDRESS_SPACE && value + len < ADDRESS_SPACE
    requires offset + len < U16_RANGE
    ensures var d, l4, l2 := start + offset, len / 4, len % 4 / 2;
            IntendedTiers(start, offset, value, len)
            == IfCount(d, value, 4, l4) + IfCount(d + 4 * l4, value + 4 * l4, 2, l2)
               + IfCount(d + 4 * l4 + 2 * l2, value + 4 * l4 + 2 * l2, 1, len % 4 % 2)
  {
    var l4, l2 := len / 4, len % 4 / 2;
    assert Offset2(offset, len) == offset + 4 * l4;
    assert Offset1(offset, len) == offset + 4 * l4 + 2 * l2;
  }

  /** A word tier, a half-word tier and a byte tier, each starting where the previous one
      ended, form one chain. */
  lemma GuardedTiersChain(d: u32, v: u32, l4: u16, l2: u16, l1: u16)
    requires d + 4 * l4 + 2 * l2 + l1 < ADDRESS_SPACE && v + 4 * l4 + 2 * l2 + l1 < ADDRESS_SPACE
    ensures var tiers := IfCount(d, v, 4, l4) + IfCount(d + 4 * l4, v + 4 * l4, 2, l2)
                         + IfCount(d + 4 * l4 + 2 * l2, v + 4 * l4 + 2 * l2, 1, l1);
            Chained(tiers, d, v) && Bytes(tiers) == 4 * l4 + 2 * l2 + l1
  {
    var d2, v2 := d + 4 * l4, v + 4 * l4;
    var d1, v1 := d2 + 2 * l2, v2 + 2 * l2;
    var a, b, c := IfCount(d, v, 4, l4), IfCount(d2, v2, 2, l2), IfCount(d1, v1, 1, l1);
    ChainedIfCount(d, v, 4, l4);
    ChainedIfCount(d2, v2, 2, l2);
    ChainedIfCount(d1, v1, 1, l1);
    BytesIfCount(d, v, 4, l4);
    BytesIfCount(d2, v2, 2, l2);
    BytesIfCount(d1, v1, 1, l1);
    ChainedAppend(b, c, d2, v2);
    BytesAppend(b, c);
    ChainedAppend(a, b + c, d, v);
    BytesAppend(a, b + c);
    AppendAssoc(a, b, c);
  }

  /** The tiers the decomposition means form one chain over len bytes (as long as
      startOffset + len fits in a uint16_t, so that startOffset does not wrap). */
  lemma IntendedChained(start: u32, offset: u16, value: u32, len: u16)
    requires start + offset + len < ADDRESS_SPACE && value + len < ADDRESS_SPACE
    requires offset + len < U16_RANGE
    ensures Chained(IntendedTiers(start, offset, value, len), start + offset, value)
    ensures Bytes(IntendedTiers(start, offset, value, len)) == len
  {
    assert 4 * (len / 4) + 2 * (len % 4 / 2) + len % 4 % 2 == len;
    IntendedTiersUnwrapped(start, offset, value, len);
    GuardedTiersChain(start + offset, value, len / 4, len % 4 / 2, len % 4 % 2);
  }

  /** With the sources the decomposition means, write copies the len bytes of the buffer into
      the EEPROM at start + startOffset and changes nothing else. */
  lemma IntendedWriteCopies(m: Memory, start: u32, offset: u16, value: u32, len: u16)
    requires start + offset + len < ADDRESS_SPACE && value + len < ADDRESS_SPACE
    requires offset + len < U16_RANGE
    requires Disjoint(start + offset, value, len)
    ensures ApplyTiers(m, IntendedTiers(start, offset, value, len)) == Copy(m, start + offset, value, len)
  {
    IntendedChained(start, offset, value, len);
    ApplyChained(m, IntendedTiers(start, offset, value, len), start + offset, value);
  }

  /** The tiers as written coincide with the intended ones when len is a multiple of 4 (only
      the word tier runs) or when startOffset is 0 and len is below 4 (no word tier, and the
      offsets the code uses are the bytes consumed so far). */
  lemma WriteTiersAsIntended(start: u32, offset: u16, value: u32, len: u16)
    requires len % 4 == 0 || (offset == 0 && len < 4)
    ensures WriteTiers(start, offset, value, len) == IntendedTiers(start, offset, value, len)
  {
  }

  /** In those cases the write as written copies the buffer. */
  lemma AlignedWriteCopies(m: Memory, start: u32, offset: u16, value: u32, len: u16)
    requires len % 4 == 0 || (offset == 0 && len < 4)
    requires start + offset + len < ADDRESS_SPACE && value + len < ADDRESS_SPACE
    requires offset + len < U16_RANGE
    requires Disjoint(start + offset, value, len)
    ensures ApplyTiers(m, WriteTiers(start, offset, value, len)) == Copy(m, start + offset, value, len)
  {
    WriteTiersAsIntended(start, offset, value, len);
    IntendedWriteCopies(m, start, offset, value, len);
  }

  lemma ApplyOne(m: Memory, t: Tier)
    ensures ApplyTiers(m, [t]) == CopyElements(m, t.dst, t.src, t.width, t.count)
  {
    assert [t][1..] == [];
  }

  /** The tiers of write(0, value, 6) as written: one word from value to start, then one
      half-word from value + 8 (not value + 4) to start + 4. */
  lemma WriteTiersOfSix(start: u32, value: u32)
    requires start + 6 < ADDRESS_SPACE && value + 10 < ADDRESS_SPACE
    ensures WriteTiers(start, 0, value, 6) == [Tier(start, value, 4, 1), Tier(start + 4, value + 8, 2, 1)]
  {
    assert Offset2(0, 6) == 4 && Offset1(0, 6) == 6;
    assert Add32(start, 0) == start && Add32(start, 4) == start + 4 && Add32(value, 8) == value + 8;
    assert IfCount(Add32(start, 6), Add32(value, 6), 1, 0) == [];
  }

  /** write(0, value, 6): the word tier copies buffer bytes 0..3 to offsets 0..3, but the
      half-word tier reads `(uint16_t*)value + 4`, buffer bytes 8 and 9, instead of bytes 4 and
      5. Whenever buffer bytes 4 and 8 differ, EEPROM byte 4 does not receive buffer byte 4. */
  lemma SourceIndexingCounterexample(m: Memory, start: u32, value: u32)
    requires start + 6 < ADDRESS_SPACE && value + 10 < ADDRESS_SPACE
    requires Disjoint(start, value, 10)
    requires m[value + 4] != m[value + 8]
    ensures ApplyTiers(m, WriteTiers(start, 0, value, 6))[start + 4] == m[value + 8]
    ensures ApplyTiers(m, WriteTiers(start, 0, value, 6))[start + 4] != m[value + 4]
  {
    var t4, t2 := Tier(start, value, 4, 1), Tier(start + 4, value + 8, 2, 1);
    WriteTiersOfSix(start, value);
    assert WriteTiers(start, 0, value, 6) == [t4] + [t2];
    ApplyTiersAppend(m, [t4], [t2]);
    ApplyOne(m, t4);
    CopyElementsIsCopy(m, start, value, 4, 1);
    var m1 := Copy(m, start, value, 4);
    ApplyOne(m1, t2);
    CopyElementsIsCopy(m1, start + 4, value + 8, 2, 1);
    assert m1[value + 8] == m[value + 8];
  }

  /** read, for 1 <= len and ranges that neither wrap nor overlap, copies the len EEPROM bytes
      at start + startOffset into the output buffer and changes nothing else. */
  lemma ReadCopies(m: Memory, output: u32, from: u32, len: u16)
    requires 1 <= len
    requires output + len < ADDRESS_SPACE && from + len < ADDRESS_SPACE
    requires Disjoint(output, from, len)
    ensures CopyElements(m, output, from, 1, Iterations(len)) == Copy(m, output, from, len)
  {
    CopyElementsIsCopy(m, output, from, 1, len);
  }

  /** read with len == 0: the do-while body runs before the first `idx != len` test and idx
      wraps, so 65536 bytes are copied where none were asked for. */
  lemma ZeroLengthReadCopiesAll(m: Memory, output: u32, from: u32)
    requires output + U16_RANGE < ADDRESS_SPACE && from + U16_RANGE < ADDRESS_SPACE
    requires Disjoint(output, from, U16_RANGE)
    requires m[output] != m[from]
    ensures CopyElements(m, output, from, 1, Iterations(0)) == Copy(m, output, from, U16_RANGE)
    ensures CopyElements(m, output, from, 1, Iterations(0)) != m
  {
    CopyElementsIsCopy(m, output, from, 1, U16_RANGE);
    assert Copy(m, output, from, U16_RANGE)[output] == m[from];
  }

  /** A counted loop (`for (idx = 0; idx < len; idx++)`) copies exactly len bytes, none when
      len is 0. */
  lemma CountedReadCopies(m: Memory, output: u32, from: u32, len: u16)
    requires output + len < ADDRESS_SPACE && from + len < ADDRESS_SPACE
    requires Disjoint(output, from, len)
    ensures CopyElements(m, output, from, 1, len) == Copy(m, output, from, len)
    ensures len == 0 ==> CopyElements(m, output, from, 1, len) == m
  {
    CopyElementsIsCopy(m, output, from, 1, len);
    CopyNothing(m, output, from);
  }

  /** erase, for 1 <= len and a range that does not wrap, zeroes the 4 * len bytes at
      start + startOffset and changes nothing else. */
  lemma EraseZeroes(m: Memory, addr: u32, len: u16)
    requires 1 <= len && addr + 4 * len < ADDRESS_SPACE
    ensures FillWords(m, addr, Iterations(len)) == Fill(m, addr, 4 * len)
  {
    FillWordsIsFill(m, addr, len);
  }

  /** Copying n bytes from src to dst and then reading them back from dst to out, as read
      does, gives back, at out, the n bytes that were at src. */
  lemma CopyThenRead(m: Memory, dst: u32, src: u32, out: u32, n: u16)
    requires 1 <= n
    requires dst + n < ADDRESS_SPACE && src + n < ADDRESS_SPACE && out + n < ADDRESS_SPACE
    requires Disjoint(out, dst, n)
    ensures CopyElements(Copy(m, dst, src, n), out, dst, 1, Iterations(n))[out..out + n] == m[src..src + n]
  {
    var written := Copy(m, dst, src, n);
    ReadCopies(written, out, dst, n);
    var read := Copy(written, out, dst, n);
    var got, sent := read[out..out + n], m[src..src + n];
    forall k | 0 <= k < n
      ensures got[k] == sent[k]
    {
      assert read[out + k] == written[dst + k] == m[src + k];
    }
  }

  /** A write that copies (the cases above) followed by a read of the same range gives back
      the buffer that was written. */
  lemma WriteThenRead(m: Memory, start: u32, offset: u16, value: u32, output: u32, len: u16,
                      written: Memory, read: Memory)
    requires 1 <= len && (len % 4 == 0 || (offset == 0 && len < 4))
    requires start + offset + len < ADDRESS_SPACE && value + len < ADDRESS_SPACE
    requires output + len < ADDRESS_SPACE && offset + len < U16_RANGE
    requires Disjoint(start + offset, value, len) && Disjoint(output, start + offset, len)
    requires written == ApplyTiers(m, WriteTiers(start, offset, value, len))
    requires read == CopyElements(written, output, start + offset, 1, Iterations(len))
    ensures read[output..output + len] == m[value..value + len]
  {
    AlignedWriteCopies(m, start, offset, value, len);
    CopyThenRead(m, start + offset, value, output, len);
  }
}

/**
 Two discrepancies between what `I2CRWBits` does and what it evidently
 means to do, and the corrected byte order with the intended properties.

 The buffer is the address byte followed by registerWidth data bytes, so a
 register read or written should visit the data indexes 1 .. registerWidth
 only. As written:
 - least-significant byte first, both `value()` and `setValue()` count
   down to index 0 inclusive, so the address byte becomes the least
   significant byte of the register: `value()` reads the address and
   `setValue()` can overwrite it;
 - most-significant byte first, `setValue()` visits 1 .. registerWidth + 1,
   so it skips nothing at the top but reads a zero past the end of the
   buffer as the last byte and writes everything one byte too low, the low
   byte being dropped.
 */
module RegisterFindings {
  import opened Bitwise
  import opened Pxt
  import opened Register

  /** The data indexes of a buffer of length len, in register order. */
  function DataOrder(len: nat, lsbFirst: bool): (order: seq<int>)
    ensures |order| == if len == 0 then 0 else len - 1
  {
    if lsbFirst then Down(len - 1, 1) else Up(1, len - 1)
  }

  // ---------------------------------------------------------------------
  // As written

  /**
   Least-significant byte first, the register `value()` assembles is the
   data's register shifted up by one byte, with the address byte below it.
   */
  lemma {:induction false} LsbFoldIncludesAddress(buf: seq<Byte>)
    requires 1 <= |buf|
    ensures FoldAt(buf, ValueOrder(|buf|, true)) == FoldAt(buf, DataOrder(|buf|, true)) * 256 + buf[0]
  {
    var hi := |buf| - 1;
    var whole, data := Down(hi, 0), Down(hi, 1);
    assert ValueOrder(|buf|, true) == whole && DataOrder(|buf|, true) == data;
    FoldDown(buf, hi, 0);
  }

  /**
   Most-significant byte first, the register `setValue()` assembles is the
   data's register shifted up by one byte, with a zero below it.
   */
  lemma {:induction false} MsbSetFoldShifted(buf: seq<Byte>)
    requires 1 <= |buf|
    ensures FoldAt(buf, SetOrder(|buf|, false)) == FoldAt(buf, DataOrder(|buf|, false)) * 256
  {
    var whole, data := Up(1, |buf|), Up(1, |buf| - 1);
    assert SetOrder(|buf|, false) == whole && DataOrder(|buf|, false) == data;
    FoldUp(buf, 1, |buf|);
  }

  // In the helpers of the examples below, the field's position and width
  // are parameters equal to the example's numbers, so that the bit
  // operations are reasoned about through their lemmas rather than unfolded
  // on constants.

  /**
   Register 0x14, one data byte 0xC3, a 3-bit field at bit 2, least
   significant byte first: `value()` reads 5 from the address byte although
   the data holds 0 in the field.
   */
  lemma LsbFirstReadExample(buf: seq<Byte>)
    requires buf == [0x14, 0xC3]
    ensures FoldAt(buf, ValueOrder(|buf|, true)) == 0xC314
    ensures ReadField(buf, ValueOrder(|buf|, true), FieldMask(3, 2), 2) == 5
  {
    LsbExampleFold(buf, ValueOrder(|buf|, true));
    LsbAddressRead(buf, ValueOrder(|buf|, true), 3, 2);
  }

  /** The example's order and fold, apart from the field. */
  lemma LsbExampleFold(buf: seq<Byte>, order: seq<int>)
    requires buf == [0x14, 0xC3] && order == ValueOrder(|buf|, true)
    ensures order == [1, 0] && FoldAt(buf, order) == 0xC314
  {
    assert order == [1, 0];
    FoldTwo(buf, 1, 0);
  }

  /** The field read from the example's fold; width and position are parameters (see above). */
  lemma LsbAddressRead(buf: seq<Byte>, order: seq<int>, numBits: nat, lowestBit: nat)
    requires FoldAt(buf, order) == 0xC314 && numBits == 3 && lowestBit == 2
    ensures ReadField(buf, order, FieldMask(numBits, lowestBit), lowestBit) == 5
  {
    ReadFieldIs(buf, order, numBits, lowestBit, 4, 8, 0xC314, 5);
  }

  /** The example's write into the address byte; width, position and value are parameters (see above). */
  lemma LsbAddressWrite(buf: seq<Byte>, order: seq<int>, numBits: nat, lowestBit: nat, v: nat)
    requires |buf| == 2 && buf[1] == 0xC3 && order == [1, 0] && FoldAt(buf, order) == 0xC314
    requires numBits == 3 && lowestBit == 2 && v == 2
    ensures WriteField(buf, order, FieldMask(numBits, lowestBit), lowestBit, v) == [0x08, 0xC3]
  {
    LsbAddressRead(buf, order, numBits, lowestBit);
    UnfoldTwo(buf, 1, 0, 0xC308, 0xC3, 0x08);
    assert Set(Set(buf, 0, 0x08), 1, 0xC3) == [0x08, 0xC3];
    WriteFieldIs(buf, order, numBits, lowestBit, v, 4, 0xC314, 5, 0xC308, [0x08, 0xC3]);
  }

  /**
   The same field: `setValue(2)` overwrites the address byte with 0x08
   and leaves the data byte as it was.
   */
  lemma LsbFirstWriteExample(buf: seq<Byte>)
    requires buf == [0x14, 0xC3]
    ensures WriteField(buf, SetOrder(|buf|, true), FieldMask(3, 2), 2, 2) == [0x08, 0xC3]
  {
    LsbExampleFold(buf, SetOrder(|buf|, true));
    LsbAddressWrite(buf, SetOrder(|buf|, true), 3, 2, 2);
  }

  /**
   Register 0x10, one data byte 0x00, a 1-bit field at bit 0, most
   significant byte first: `setValue(1)` writes the buffer back unchanged.
   */
  lemma MsbFirstWriteExample(buf: seq<Byte>)
    requires buf == [0x10, 0x00]
    ensures WriteField(buf, SetOrder(|buf|, false), FieldMask(1, 0), 0, 1) == buf
  {
    assert SetOrder(2, false) == [1, 2];
    assert DataOrder(2, false) == [1];
    OneByteFold(buf, 1);
    MsbSetFoldShifted(buf);
    ReadFieldIs(buf, [1, 2], 1, 0, 1, 2, 0, 0);
    UnfoldTwo(buf, 1, 2, 1, 0, 1);
    WriteFieldIs(buf, [1, 2], 1, 0, 1, 1, 0, 0, 1, buf);
  }

  /** The same field: after that write, `value()` still reads 0. */
  lemma MsbFirstReadExample(buf: seq<Byte>)
    requires buf == [0x10, 0x00]
    ensures ReadField(buf, ValueOrder(|buf|, false), FieldMask(1, 0), 0) == 0
  {
    MsbWholeFold(buf, ValueOrder(|buf|, false));
    MsbWholeRead(buf, ValueOrder(|buf|, false), 1, 0);
  }

  /** The example's fold along value()'s msb order, apart from the field. */
  lemma MsbWholeFold(buf: seq<Byte>, order: seq<int>)
    requires buf == [0x10, 0x00] && order == ValueOrder(|buf|, false)
    ensures FoldAt(buf, order) == 0x1000
  {
    assert order == [0, 1];
    FoldTwo(buf, 0, 1);
  }

  /** Bit 0 of the example's fold; width and position are parameters (see above). */
  lemma MsbWholeRead(buf: seq<Byte>, order: seq<int>, numBits: nat, lowestBit: nat)
    requires FoldAt(buf, order) == 0x1000 && numBits == 1 && lowestBit == 0
    ensures ReadField(buf, order, FieldMask(numBits, lowestBit), lowestBit) == 0
  {
    ReadFieldIs(buf, order, numBits, lowestBit, 1, 2, 0x1000, 0);
  }

  // ---------------------------------------------------------------------
  // Corrected

  /**
   The first example along the data bytes only: `value()` reads 0, and
   `setValue(2)` keeps the address and puts 2 into bits 2 .. 4 of the data.
   */
  lemma LsbFirstExampleCorrected(buf: seq<Byte>)
    requires buf == [0x14, 0xC3]
    ensures ReadField(buf, DataOrder(|buf|, true), FieldMask(3, 2), 2) == 0
    ensures WriteField(buf, DataOrder(|buf|, true), FieldMask(3, 2), 2, 2) == [0x14, 0xCB]
  {
    assert DataOrder(2, true) == [1];
    LsbDataWrite(buf, 3, 2, 2);
  }

  /**
   The first example along the data byte; width, position and value are
   parameters so that the bit operations go through their lemmas rather
   than being unfolded on constants.
   */
  lemma LsbDataWrite(buf: seq<Byte>, numBits: nat, lowestBit: nat, v: nat)
    requires buf == [0x14, 0xC3] && numBits == 3 && lowestBit == 2 && v == 2
    ensures ReadField(buf, [1], FieldMask(numBits, lowestBit), lowestBit) == 0
    ensures WriteField(buf, [1], FieldMask(numBits, lowestBit), lowestBit, v) == [0x14, 0xCB]
  {
    OneByteFold(buf, 1);
    ReadFieldIs(buf, [1], numBits, lowestBit, 4, 8, 0xC3, 0);
    UnfoldOne(buf, 1, 0xCB);
    WriteFieldIs(buf, [1], numBits, lowestBit, v, 4, 0xC3, 0, 0xCB, [0x14, 0xCB]);
  }

  /** The second example along the data bytes only: `setValue(1)` sets the bit. */
  lemma MsbFirstExampleCorrected(buf: seq<Byte>)
    requires buf == [0x10, 0x00]
    ensures WriteField(buf, DataOrder(|buf|, false), FieldMask(1, 0), 0, 1) == [0x10, 0x01]
  {
    assert DataOrder(2, false) == [1];
    OneByteFold(buf, 1);
    ReadFieldIs(buf, [1], 1, 0, 1, 2, 0, 0);
    UnfoldOne(buf, 1, 1);
    WriteFieldIs(buf, [1], 1, 0, 1, 1, 0, 0, 1, [0x10, 0x01]);
  }

  /**
   Register 0x20 with the data bytes 0x34, 0x12 as received: along the
   data indexes, least-significant byte first assembles 0x1234 and most
   significant byte first 0x3412; the order `value()` uses least
   significant byte first assembles 0x123420 instead.
   */
  lemma TwoByteOrders(buf: seq<Byte>)
    requires buf == [0x20, 0x34, 0x12]
    ensures FoldAt(buf, DataOrder(|buf|, true)) == 0x1234
    ensures FoldAt(buf, DataOrder(|buf|, false)) == 0x3412
    ensures FoldAt(buf, ValueOrder(|buf|, true)) == 0x123420
  {
    TwoByteFolds(buf, DataOrder(|buf|, true), DataOrder(|buf|, false));
    LsbFoldIncludesAddress(buf);
  }

  /** The three folds of TwoByteOrders, with the orders as parameters. */
  lemma TwoByteFolds(buf: seq<Byte>, lsb: seq<int>, msb: seq<int>)
    requires buf == [0x20, 0x34, 0x12] && lsb == DataOrder(|buf|, true) && msb == DataOrder(|buf|, false)
    ensures FoldAt(buf, lsb) == 0x1234 && FoldAt(buf, msb) == 0x3412
  {
    assert lsb == [2, 1] && msb == [1, 2];
    FoldTwo(buf, 2, 1);
    FoldTwo(buf, 1, 2);
  }

  /**
   Along the data indexes, `setValue()` never touches the address byte and
   keeps the buffer's length.
   */
  lemma CorrectedKeepsAddress(buf: seq<Byte>, lsbFirst: bool, mask: nat, lowestBit: nat, v: nat)
    requires 1 <= |buf|
    ensures var written := WriteField(buf, DataOrder(|buf|, lsbFirst), mask, lowestBit, v);
      |written| == |buf| && written[0] == buf[0]
  {
    DataIndexes(|buf|, lsbFirst);
  }

  /** The data indexes are distinct indexes of the buffer, the address's excluded. */
  lemma DataIndexes(len: nat, lsbFirst: bool)
    ensures Indexes(DataOrder(len, lsbFirst), len)
    ensures 0 !in DataOrder(len, lsbFirst)
  {
  }

  /** The mask check, read as arithmetic on the data bytes. */
  lemma MaskFitsData(numBits: nat, lowestBit: nat, len: nat)
    requires 1 <= len && !MaskTooWide(FieldMask(numBits, lowestBit), len - 1)
    ensures FieldMask(numBits, lowestBit) < Pow2(8 * |DataOrder(len, true)|)
    ensures |DataOrder(len, true)| == |DataOrder(len, false)| == len - 1
  {
    ShlMul(1, (len - 1) * 8);
  }

  /**
   Along the data indexes, in either byte order, for a field that passes
   the width check: `setValue(v)` with a v that fits, then `value()`,
   gives v.
   */
  lemma CorrectedWriteThenRead(buf: seq<Byte>, lsbFirst: bool, numBits: nat, lowestBit: nat, v: nat)
    requires 1 <= |buf| && !MaskTooWide(FieldMask(numBits, lowestBit), |buf| - 1)
    requires v < Pow2(numBits)
    ensures var order, m := DataOrder(|buf|, lsbFirst), FieldMask(numBits, lowestBit);
      ReadField(WriteField(buf, order, m, lowestBit, v), order, m, lowestBit) == v
  {
    MaskFitsData(numBits, lowestBit, |buf|);
    DataIndexes(|buf|, lsbFirst);
    WriteThenRead(buf, DataOrder(|buf|, lsbFirst), numBits, lowestBit, v);
  }

  /**
   Along the data indexes, in either byte order: `setValue(value())`
   writes back the very buffer it read.
   */
  lemma CorrectedReadThenWrite(buf: seq<Byte>, lsbFirst: bool, numBits: nat, lowestBit: nat)
    ensures var order, m := DataOrder(|buf|, lsbFirst), FieldMask(numBits, lowestBit);
      WriteField(buf, order, m, lowestBit, ReadField(buf, order, m, lowestBit)) == buf
  {
    ReadThenWrite(buf, DataOrder(|buf|, lsbFirst), numBits, lowestBit);
  }

  /**
   Along the data indexes, for a field that passes the width check and a
   v that fits: after `setValue(v)` the register's field bits are v's and
   every other bit of the register is what it was.
   */
  lemma CorrectedWriteBits(buf: seq<Byte>, lsbFirst: bool, numBits: nat, lowestBit: nat, v: nat, k: nat)
    requires 1 <= |buf| && !MaskTooWide(FieldMask(numBits, lowestBit), |buf| - 1)
    requires v < Pow2(numBits)
    ensures var order, m := DataOrder(|buf|, lsbFirst), FieldMask(numBits, lowestBit);
      Bit(FoldAt(WriteField(buf, order, m, lowestBit, v), order), k)
        == if lowestBit <= k < lowestBit + numBits then Bit(v, k - lowestBit) else Bit(FoldAt(buf, order), k)
  {
    var order := DataOrder(|buf|, lsbFirst);
    var w := 8 * |order|;
    var before := FoldAt(buf, order);
    DataIndexes(|buf|, lsbFirst);
    MaskFitsData(numBits, lowestBit, |buf|);
    FieldFits(numBits, lowestBit, w);
    WriteFieldBits(buf, order, numBits, lowestBit, v, k);
    var after := FoldAt(WriteField(buf, order, FieldMask(numBits, lowestBit), lowestBit, v), order);
    FittingBit(before, v, numBits, lowestBit, w, k, Bit(after, k));
  }

  /**
   The bit-level reading of a write, simplified for a field inside the
   register's w bits and a value of at most numBits bits.
   */
  lemma FittingBit(before: nat, v: nat, numBits: nat, lowestBit: nat, w: nat, k: nat, after: bool)
    requires numBits == 0 || lowestBit + numBits <= w
    requires before < Pow2(w) && v < Pow2(numBits)
    requires after == (k < w &&
      if lowestBit <= k < lowestBit + numBits then Bit(v, k - lowestBit)
      else Bit(before, k) || (lowestBit <= k && Bit(v, k - lowestBit)))
    ensures after == if lowestBit <= k < lowestBit + numBits then Bit(v, k - lowestBit) else Bit(before, k)
  {
    if lowestBit <= k < lowestBit + numBits {
      assert k < w;
    } else if w <= k {
      HighBitsClear(before, w, k);
    } else if lowestBit <= k {
      HighBitsClear(v, numBits, k - lowestBit);
    }
  }

  /**
   Most-significant byte first, `value()` is right as written: the address
   byte it assembles sits above the register's bits and the mask, which
   passes the width check, never reaches it.
   */
  lemma MsbValueAgrees(buf: seq<Byte>, numBits: nat, lowestBit: nat)
    requires 1 <= |buf| && !MaskTooWide(FieldMask(numBits, lowestBit), |buf| - 1)
    ensures var m := FieldMask(numBits, lowestBit);
      ReadField(buf, ValueOrder(|buf|, false), m, lowestBit) == ReadField(buf, DataOrder(|buf|, false), m, lowestBit)
  {
    var data := DataOrder(|buf|, false);
    var w := 8 * |data|;
    assert ValueOrder(|buf|, false) == [0] + data;
    FoldFront(buf, 0, data);
    var low := FoldAt(buf, data);
    DivModUnique(FoldAt(buf, [0] + data), Pow2(w), Get(buf, 0), low);
    MaskFitsData(numBits, lowestBit, |buf|);
    FieldFits(numBits, lowestBit, w);
    FieldValueLowBits(FoldAt(buf, [0] + data), numBits, lowestBit, w);
  }

  // ---------------------------------------------------------------------
  // Helpers

  /** Counting down to lo, byte lo comes last. */
  lemma FoldDown(buf: seq<Byte>, hi: int, lo: int)
    requires lo <= hi
    ensures FoldAt(buf, Down(hi, lo)) == FoldAt(buf, Down(hi, lo + 1)) * 256 + Get(buf, lo)
  {
    DownLast(hi, lo);
    FoldLast(buf, Down(hi, lo + 1), lo);
  }

  /** Counting up to hi, byte hi comes last. */
  lemma FoldUp(buf: seq<Byte>, lo: int, hi: int)
    requires lo <= hi
    ensures FoldAt(buf, Up(lo, hi)) == FoldAt(buf, Up(lo, hi - 1)) * 256 + Get(buf, hi)
  {
    UpLast(lo, hi);
    FoldLast(buf, Up(lo, hi - 1), hi);
  }

  lemma DownLast(hi: int, lo: int)
    requires lo <= hi
    ensures Down(hi, lo) == Down(hi, lo + 1) + [lo]
  {
  }

  lemma UpLast(lo: int, hi: int)
    requires lo <= hi
    ensures Up(lo, hi) == Up(lo, hi - 1) + [hi]
  {
  }

  /**
   Reading a field of a known fold, by arithmetic. The powers of two are
   passed in as p and q so that callers supply them as constants once.
   */
  lemma ReadFieldIs(buf: seq<Byte>, order: seq<int>, numBits: nat, lowestBit: nat, p: nat, q: nat, reg: nat, r: nat)
    requires Pow2(lowestBit) == p && Pow2(numBits) == q
    requires FoldAt(buf, order) == reg && (reg / p) % q == r
    ensures ReadField(buf, order, FieldMask(numBits, lowestBit), lowestBit) == r
  {
    FieldValueArith(reg, numBits, lowestBit);
  }

  /**
   Writing a field into a known fold, by arithmetic: r is the register
   with the old field value e replaced by v. Pow2(lowestBit) is passed in
   as p for the same reason as in ReadFieldIs.
   */
  lemma WriteFieldIs(buf: seq<Byte>, order: seq<int>, numBits: nat, lowestBit: nat, v: nat,
                     p: nat, reg: nat, e: nat, r: nat, written: seq<Byte>)
    requires Pow2(lowestBit) == p && v < Pow2(numBits)
    requires FoldAt(buf, order) == reg && ReadField(buf, order, FieldMask(numBits, lowestBit), lowestBit) == e
    requires r + e * p == reg + v * p
    requires UnfoldInto(buf, order, r) == written
    ensures WriteField(buf, order, FieldMask(numBits, lowestBit), lowestBit, v) == written
  {
    InsertValue(reg, numBits, lowestBit, v, e, r);
  }

  /** FieldInsertArith, solved for the inserted register r. */
  lemma InsertValue(reg: nat, numBits: nat, lowestBit: nat, v: nat, e: nat, r: nat)
    requires v < Pow2(numBits) && FieldValue(reg, FieldMask(numBits, lowestBit), lowestBit) == e
    requires r + e * Pow2(lowestBit) == reg + v * Pow2(lowestBit)
    ensures FieldInsert(reg, FieldMask(numBits, lowestBit), lowestBit, v) == r
  {
    FieldInsertArith(reg, numBits, lowestBit, v);
  }

  /** Assembling `[i] + rest` puts byte i above the bytes of rest. */
  lemma {:induction false} FoldFront(buf: seq<Byte>, i: int, rest: seq<int>)
    ensures FoldAt(buf, [i] + rest) == Get(buf, i) * Pow2(8 * |rest|) + FoldAt(buf, rest)
    decreases |rest|
  {
    var b := Get(buf, i);
    if rest == [] {
      assert [i] + rest == [i];
      OneByteFold(buf, i);
    } else {
      var n := |rest|;
      var pre, j := rest[..n - 1], rest[n - 1];
      assert rest == pre + [j];
      assert [i] + rest == ([i] + pre) + [j];
      FoldFront(buf, i, pre);
      FoldLast(buf, [i] + pre, j);
      FoldLast(buf, pre, j);
      Pow2Bytes(n);
      FrontArith(b, Pow2(8 * (n - 1)), FoldAt(buf, pre), Get(buf, j), Pow2(8 * n),
                 FoldAt(buf, [i] + pre), FoldAt(buf, [i] + rest), FoldAt(buf, rest));
    }
  }

  /**
   The arithmetic step of FoldFront, over plain integers so that the
   solver sees only the products it needs and never unfolds Pow2 or FoldAt.
   */
  lemma FrontArith(b: int, p: int, f: int, last: int, q: int, front: int, whole: int, r: int)
    requires q == p * 256 && front == b * p + f
    requires whole == front * 256 + last && r == f * 256 + last
    ensures whole == b * q + r
  {
  }

  /** Assembling `pre + [i]` puts byte i below the bytes of pre. */
  lemma FoldLast(buf: seq<Byte>, pre: seq<int>, i: int)
    ensures FoldAt(buf, pre + [i]) == FoldAt(buf, pre) * 256 + Get(buf, i)
  {
    assert (pre + [i])[..|pre|] == pre;
    ByteAppend(FoldAt(buf, pre), Get(buf, i));
  }

  lemma OneByteFold(buf: seq<Byte>, i: int)
    ensures FoldAt(buf, [i]) == Get(buf, i)
  {
    assert [i][..0] == [];
    ByteAppend(0, Get(buf, i));
  }

  lemma FoldTwo(buf: seq<Byte>, i: int, j: int)
    ensures FoldAt(buf, [i, j]) == Get(buf, i) * 256 + Get(buf, j)
  {
    assert [i, j][..1] == [i];
    OneByteFold(buf, i);
    ByteAppend(Get(buf, i), Get(buf, j));
  }

  lemma UnfoldOne(buf: seq<Byte>, i: int, x: nat)
    requires x < 256
    ensures UnfoldInto(buf, [i], x) == Set(buf, i, x)
  {
    assert [i][..0] == [];
    LowByte(x);
  }

  lemma UnfoldTwo(buf: seq<Byte>, i: int, j: int, x: nat, hi: Byte, lo: Byte)
    requires x == hi * 256 + lo
    ensures UnfoldInto(buf, [i, j], x) == Set(Set(buf, j, lo), i, hi)
  {
    assert [i, j][..1] == [i];
    LowByte(x);
    DivModUnique(x, 256, hi, lo);
    UnfoldOne(Set(buf, j, lo), i, hi);
  }
}

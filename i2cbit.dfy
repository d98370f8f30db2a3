/**
 The single-bit register accessor `RWBit` and the combined bus exchange
 `write_then_readinto` that both accessors use to refresh their buffer.
 A field's buffer holds the register address at index 0 and the register's
 data bytes after it; the device side of the bus is given as the sequence
 of data bytes that a read returns.
 */
module I2cRegister {
  import opened Bitwise
  import opened Pxt

  /**
   `write_then_readinto`: sends `outBuffer[0 .. outEnd)` (when `outEnd` is
   positive) and then reads the device's bytes into `inBuffer` from
   `inStart` on, without releasing the bus in between. `writes` lists the
   byte sequences put on the bus (none or one); the bytes are taken before
   the read, so `outBuffer` and `inBuffer` may be the same buffer.
   */
  method WriteThenReadInto(outBuffer: array<Byte>, inBuffer: array<Byte>, outEnd: int, inStart: nat, device: seq<Byte>)
    returns (writes: seq<seq<Byte>>)
    requires inStart <= inBuffer.Length && |device| == inBuffer.Length - inStart
    modifies inBuffer
    ensures writes == if outEnd > 0 then [old(outBuffer[..if outEnd < outBuffer.Length then outEnd else outBuffer.Length])] else []
    ensures inBuffer[..] == old(inBuffer[..inStart]) + device
  {
    writes := [];
    if outEnd > 0 {
      var end := if outEnd < outBuffer.Length then outEnd else outBuffer.Length;
      writes := [outBuffer[..end]];
    }
    forall i | inStart <= i < inBuffer.Length {
      inBuffer[i] := device[i - inStart];
    }
  }

  /**
   Index in the buffer of the byte holding register bit `bit`. Nothing
   guards it: a bit beyond the register lands outside the buffer
   (least-significant byte first) or on the address byte and below
   (most-significant byte first).
   */
  function ByteIndex(bit: nat, registerWidth: nat, lsbFirst: bool): (i: int)
    ensures bit < 8 * registerWidth ==> 1 <= i <= registerWidth
    ensures lsbFirst && 8 * registerWidth <= bit ==> registerWidth < i
    ensures !lsbFirst && 8 * registerWidth <= bit < 8 * registerWidth + 8 ==> i == 0
  {
    if lsbFirst then bit / 8 + 1 else registerWidth - bit / 8
  }

  /** `1 << (bit % 8)`: the mask of the bit within its byte. */
  function BitMask(bit: nat): (m: Byte)
    ensures forall k: nat :: Bit(m, k) <==> k == bit % 8
  {
    var j := bit % 8;
    Pow2Monotone(j + 1, 8);
    assert Pow2(8) == 256;
    ShlMul(1, j);
    OneHot(j);
    Shl(1, j)
  }

  lemma OneHot(j: nat)
    ensures forall k: nat :: Bit(Shl(1, j), k) <==> k == j
  {
    forall k: nat
      ensures Bit(Shl(1, j), k) <==> k == j
    {
      ShlBit(1, j, k);
      if j <= k {
        BitOfOne(k - j);
      }
    }
  }

  /** `!!(b & mask)` */
  function Test(b: Byte, mask: Byte): bool
  {
    And(b, mask) != 0
  }

  /** Testing with the mask of `bit` reads bit `bit % 8` of the byte. */
  lemma TestBitMask(b: Byte, bit: nat)
    ensures Test(b, BitMask(bit)) <==> Bit(b, bit % 8)
  {
    var m := BitMask(bit);
    if Bit(b, bit % 8) {
      AndBit(b, m, bit % 8);
      BitOfZero(bit % 8);
    } else {
      forall k: nat
        ensures Bit(And(b, m), k) == Bit(0, k)
      {
        AndBit(b, m, k);
        BitOfZero(k);
      }
      BitsDetermine(And(b, m), 0);
    }
  }

  /**
   `b |= mask` when v holds, `b &= ~mask` otherwise: the bits under the
   mask become v and every other bit keeps its value.
   */
  function Update(b: Byte, mask: Byte, v: bool): (r: Byte)
    ensures forall k: nat :: Bit(r, k) == (if Bit(mask, k) then v else Bit(b, k))
  {
    var r: nat := if v then Or(b, mask) else AndNot(b, mask);
    assert Pow2(8) == 256;
    OrBits(b, mask);
    AndNotBits(b, mask);
    HighBitsClearAll(b, 8);
    HighBitsClearAll(mask, 8);
    BelowPow2(r, 8);
    r
  }

  /** The buffer after `setValue(v)` has updated the byte at `byteIndex`. */
  function SetBit(buf: seq<Byte>, byteIndex: int, mask: Byte, v: bool): seq<Byte>
  {
    Set(buf, byteIndex, Update(Get(buf, byteIndex), mask, v))
  }

  /**
   For a bit inside the register, setting it changes exactly that bit of
   one data byte: the address byte, every other byte and every other bit
   of the addressed byte keep their values, and the bit then reads as v.
   */
  lemma SetBitEffect(buf: seq<Byte>, bit: nat, registerWidth: nat, lsbFirst: bool, v: bool)
    requires |buf| == 1 + registerWidth && bit < 8 * registerWidth
    ensures var i := ByteIndex(bit, registerWidth, lsbFirst);
      var r := SetBit(buf, i, BitMask(bit), v);
      && |r| == |buf| && 1 <= i < |buf|
      && r[0] == buf[0]
      && (forall p :: 0 <= p < |buf| && p != i ==> r[p] == buf[p])
      && Test(r[i], BitMask(bit)) == v
      && (forall k: nat :: k != bit % 8 ==> Bit(r[i], k) == Bit(buf[i], k))
  {
    var i := ByteIndex(bit, registerWidth, lsbFirst);
    var r := SetBit(buf, i, BitMask(bit), v);
    TestBitMask(r[i], bit);
  }

  /** Setting a bit to the value it already has leaves the buffer as it is. */
  lemma SetBitIdempotent(buf: seq<Byte>, byteIndex: int, bit: nat, v: bool)
    requires Test(Get(buf, byteIndex), BitMask(bit)) == v
    ensures SetBit(buf, byteIndex, BitMask(bit), v) == buf
  {
    var b := Get(buf, byteIndex);
    TestBitMask(b, bit);
    BitsDetermine(Update(b, BitMask(bit), v), b);
    SetGet(buf, byteIndex);
  }

  /**
   Register 0x10, bit 3, one data byte: setting the bit of a zero register
   gives 0b00001000, and clearing it again gives back zero.
   */
  lemma SetBitExample()
    ensures SetBit([0x10, 0], ByteIndex(3, 1, true), BitMask(3), true) == [0x10, 8]
    ensures SetBit([0x10, 8], ByteIndex(3, 1, true), BitMask(3), false) == [0x10, 0]
  {
    assert BitMask(3) == 8;
    forall k: nat
      ensures Bit(Update(0, 8, true), k) == Bit(8, k)
      ensures Bit(Update(8, 8, false), k) == Bit(0, k)
    {
      BitOfZero(k);
    }
    BitsDetermine(Update(0, 8, true), 8);
    BitsDetermine(Update(8, 8, false), 0);
  }

  /**
   `RWBit`: one boolean bit of a register `registerWidth` bytes wide. The
   mask and byte index are derived once, at construction; `buffer` holds
   the address byte followed by the data bytes of the last refresh.
   */
  class RWBit {
    const bitMask: Byte
    const buffer: array<Byte>
    const byteIndex: int

    ghost const bit: nat
    ghost const registerWidth: nat
    ghost const lsbFirst: bool
    /** Every byte sequence this field has put on the bus, oldest first. */
    ghost var sent: seq<seq<Byte>>

    ghost predicate Valid()
    {
      && bitMask == BitMask(bit)
      && byteIndex == ByteIndex(bit, registerWidth, lsbFirst)
      && buffer.Length == 1 + registerWidth
    }

    constructor (registerAddress: nat, bit: nat, registerWidth: nat := 1, lsbFirst: bool := true)
      ensures Valid() && fresh(buffer)
      ensures this.bit == bit && this.registerWidth == registerWidth && this.lsbFirst == lsbFirst
      ensures buffer[..] == [registerAddress % 256] + seq(registerWidth, _ => 0)
      ensures sent == []
    {
      bitMask := BitMask(bit);
      var buf := new Byte[1 + registerWidth](_ => 0);
      buf[0] := registerAddress % 256;
      buffer := buf;
      if lsbFirst {
        byteIndex := bit / 8 + 1;
      } else {
        byteIndex := registerWidth - bit / 8;
      }
      this.bit, this.registerWidth, this.lsbFirst := bit, registerWidth, lsbFirst;
      sent := [];
    }

    /** Refreshes the buffer from the device and tests the bit. */
    method Value(device: seq<Byte>) returns (v: bool)
      requires Valid() && |device| == registerWidth
      modifies buffer, this`sent
      ensures Valid()
      ensures buffer[..] == [old(buffer[0])] + device
      ensures sent == old(sent) + [[old(buffer[0])]]
      ensures v == Test(Get(buffer[..], byteIndex), bitMask)
      ensures bit < 8 * registerWidth ==> (v <==> Bit(device[byteIndex - 1], bit % 8))
    {
      assert buffer[..1] == [buffer[0]];
      var writes := WriteThenReadInto(buffer, buffer, 1, 1, device);
      sent := sent + writes;
      var b := if 0 <= byteIndex < buffer.Length then buffer[byteIndex] else 0;
      v := Test(b, bitMask);
      TestBitMask(b, bit);
    }

    /**
     Refreshes the buffer from the device, sets or clears the bit and
     writes the whole buffer, address byte included.
     */
    method SetValue(device: seq<Byte>, v: bool)
      requires Valid() && |device| == registerWidth
      modifies buffer, this`sent
      ensures Valid()
      ensures buffer[..] == SetBit([old(buffer[0])] + device, byteIndex, bitMask, v)
      ensures sent == old(sent) + [[old(buffer[0])]] + [buffer[..]]
      ensures bit < 8 * registerWidth ==> buffer[0] == old(buffer[0]) && Test(buffer[byteIndex], bitMask) == v
    {
      assert buffer[..1] == [buffer[0]];
      var writes := WriteThenReadInto(buffer, buffer, 1, 1, device);
      sent := sent + writes;
      ghost var refreshed := buffer[..];
      if 0 <= byteIndex < buffer.Length {
        buffer[byteIndex] := Update(buffer[byteIndex], bitMask, v);
      }
      sent := sent + [buffer[..]];
      if bit < 8 * registerWidth {
        SetBitEffect(refreshed, bit, registerWidth, lsbFirst, v);
      }
    }
  }
}

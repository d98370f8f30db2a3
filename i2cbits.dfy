/**
 The multi-bit register accessor `I2CRWBits` with its two array helpers,
 `range` and `reversed`. A field is `numBits` contiguous bits starting at
 `lowestBit` of the number that the buffer's bytes spell when they are
 read in a given index order, most significant first.

 The pure functions below describe what the accessor computes:
 `FoldAt` assembles bytes into a number along an order, `UnfoldInto`
 writes a number back along the same order, `FieldValue` and `FieldInsert`
 extract and replace the field. The class methods are proved to compute
 exactly these, and the lemmas state what the functions promise.
 */
module Register {
  import opened Bitwise
  import opened Pxt
  import I2cRegister

  datatype Option<T> = None | Some(value: T)

  /** `lo, lo + 1, ..., hi`, empty when lo > hi. */
  function Up(lo: int, hi: int): (r: seq<int>)
    ensures |r| == if lo <= hi then hi - lo + 1 else 0
    ensures forall k :: 0 <= k < |r| ==> r[k] == lo + k
    decreases hi - lo
  {
    if lo > hi then [] else [lo] + Up(lo + 1, hi)
  }

  /** `hi, hi - 1, ..., lo`, empty when hi < lo. */
  function Down(hi: int, lo: int): (r: seq<int>)
    ensures |r| == if lo <= hi then hi - lo + 1 else 0
    ensures forall k :: 0 <= k < |r| ==> r[k] == hi - k
    decreases hi - lo
  {
    if hi < lo then [] else [hi] + Down(hi - 1, lo)
  }

  /**
   `range(start, end, interval)`: counts from start to end, both included,
   upwards when interval is positive and downwards otherwise; the size of
   the step is never used.
   */
  method Range(start: int, end: int, interval: int := 1) returns (r: seq<int>)
    ensures r == if interval > 0 then Up(start, end) else Down(start, end)
  {
    r := [];
    if interval > 0 {
      var i := start;
      while i <= end
        invariant i == start || i <= end + 1
        invariant r == Up(start, i - 1)
        decreases end - i
      {
        r := r + [i];
        i := i + 1;
      }
    } else {
      var i := start;
      while i >= end
        invariant i == start || end - 1 <= i
        invariant r == Down(start, i + 1)
        decreases i - end
      {
        r := r + [i];
        i := i - 1;
      }
    }
  }

  /** `reversed(a)`: copies a and reverses the copy in place. */
  method Reversed(a: seq<int>) returns (r: seq<int>)
    ensures |r| == |a|
    ensures forall k :: 0 <= k < |a| ==> r[k] == a[|a| - 1 - k]
  {
    var copy := new int[|a|](k requires 0 <= k < |a| => a[k]);
    var n := copy.Length;
    var i := 0;
    while i < n / 2
      invariant 0 <= i <= n / 2
      invariant forall k :: 0 <= k < i ==> copy[k] == a[n - 1 - k] && copy[n - 1 - k] == a[k]
      invariant forall k :: i <= k < n - i ==> copy[k] == a[k]
    {
      copy[i], copy[n - 1 - i] := copy[n - 1 - i], copy[i];
      i := i + 1;
    }
    r := copy[..];
  }

  /** The index order `value()` assembles the buffer in. */
  function ValueOrder(len: nat, lsbFirst: bool): seq<int>
  {
    if lsbFirst then Down(len - 1, 0) else Up(0, len - 1)
  }

  /** The index order `setValue()` assembles and disassembles the buffer in. */
  function SetOrder(len: nat, lsbFirst: bool): seq<int>
  {
    if lsbFirst then Down(len - 1, 0) else Up(1, len)
  }

  /** The order visits distinct indexes, all inside a buffer of length len. */
  ghost predicate Indexes(order: seq<int>, len: nat)
  {
    && (forall k :: 0 <= k < |order| ==> 0 <= order[k] < len)
    && (forall k, l :: 0 <= k < l < |order| ==> order[k] != order[l])
  }

  /** `((1 << numBits) - 1) << lowestBit` */
  function FieldMask(numBits: nat, lowestBit: nat): nat
  {
    Shl(Shl(1, numBits) - 1, lowestBit)
  }

  /** The construction-time check: the mask reaches `1 << (registerWidth * 8)`. */
  predicate MaskTooWide(mask: nat, registerWidth: nat)
  {
    mask >= Shl(1, registerWidth * 8)
  }

  /** `(reg & mask) >> lowestBit` */
  function FieldValue(reg: nat, mask: nat, lowestBit: nat): nat
  {
    Shr(And(reg, mask), lowestBit)
  }

  /** `(reg & ~mask) | (v << lowestBit)` */
  function FieldInsert(reg: nat, mask: nat, lowestBit: nat, v: nat): nat
  {
    Or(AndNot(reg, mask), Shl(v, lowestBit))
  }

  /** `reg = reg << 8 | buf[i]` for every i of the order, starting from 0. */
  function FoldAt(buf: seq<Byte>, order: seq<int>): (reg: nat)
    ensures reg < Pow2(8 * |order|)
    decreases |order|
  {
    if order == [] then 0
    else
      var n := |order|;
      var acc := FoldAt(buf, order[..n - 1]);
      var b := Get(buf, order[n - 1]);
      AppendBound(acc, b, n);
      Or(Shl(acc, 8), b)
  }

  /**
   `buf[i] = reg & 0xFF; reg >>= 8` for every i of the order, last index
   first.
   */
  function UnfoldInto(buf: seq<Byte>, order: seq<int>, reg: nat): (r: seq<Byte>)
    ensures |r| == |buf|
    ensures forall p :: 0 <= p < |buf| && p !in order ==> r[p] == buf[p]
    decreases |order|
  {
    if order == [] then buf
    else
      var n := |order|;
      assert forall p :: p in order[..n - 1] ==> p in order;
      UnfoldInto(Set(buf, order[n - 1], And(reg, 0xFF)), order[..n - 1], Shr(reg, 8))
  }

  /** What `value()` returns once the buffer holds buf. */
  function ReadField(buf: seq<Byte>, order: seq<int>, mask: nat, lowestBit: nat): nat
  {
    FieldValue(FoldAt(buf, order), mask, lowestBit)
  }

  /** The buffer `setValue(v)` writes when the refreshed buffer holds buf. */
  function WriteField(buf: seq<Byte>, order: seq<int>, mask: nat, lowestBit: nat, v: nat): seq<Byte>
  {
    UnfoldInto(buf, order, FieldInsert(FoldAt(buf, order), mask, lowestBit, v))
  }

  /** Bytes read most significant first, as a number. */
  function BigEndian(bytes: seq<nat>): nat
  {
    if bytes == [] then 0 else BigEndian(bytes[..|bytes| - 1]) * 256 + bytes[|bytes| - 1]
  }

  /** The bytes of buf that an order visits, in that order. */
  function Gather(buf: seq<Byte>, order: seq<int>): seq<nat>
  {
    seq(|order|, k requires 0 <= k < |order| => Get(buf, order[k]))
  }

  // ---------------------------------------------------------------------
  // Masks

  /** The mask has exactly the bits lowestBit .. lowestBit + numBits - 1. */
  lemma FieldMaskBits(numBits: nat, lowestBit: nat, k: nat)
    ensures Bit(FieldMask(numBits, lowestBit), k) == (lowestBit <= k < lowestBit + numBits)
  {
    ShlMul(1, numBits);
    ShlBit(Shl(1, numBits) - 1, lowestBit, k);
    if lowestBit <= k {
      LowMaskBit(numBits, k - lowestBit);
    }
  }

  /**
   Construction fails exactly when a non-empty field reaches past the
   register's 8 * registerWidth bits.
   */
  lemma MaskTooWideIff(numBits: nat, lowestBit: nat, registerWidth: nat)
    ensures MaskTooWide(FieldMask(numBits, lowestBit), registerWidth)
        <==> 0 < numBits && 8 * registerWidth < lowestBit + numBits
  {
    var m := FieldMask(numBits, lowestBit);
    var w := 8 * registerWidth;
    ShlMul(1, registerWidth * 8);
    assert Shl(1, registerWidth * 8) == Pow2(w);
    if 0 < numBits && w < lowestBit + numBits {
      FieldMaskBits(numBits, lowestBit, lowestBit + numBits - 1);
      BitBound(m, lowestBit + numBits - 1);
      Pow2Monotone(w, lowestBit + numBits - 1);
    } else {
      forall k: nat | w <= k
        ensures !Bit(m, k)
      {
        FieldMaskBits(numBits, lowestBit, k);
      }
      BelowPow2(m, w);
    }
  }

  /** A non-empty field whose mask is below 2^width lies inside bits 0 .. width - 1. */
  lemma FieldFits(numBits: nat, lowestBit: nat, width: nat)
    requires FieldMask(numBits, lowestBit) < Pow2(width)
    ensures numBits == 0 || lowestBit + numBits <= width
  {
    if 0 < numBits && width < lowestBit + numBits {
      var top := lowestBit + numBits - 1;
      FieldMaskBits(numBits, lowestBit, top);
      BitBound(FieldMask(numBits, lowestBit), top);
      Pow2Monotone(width, top);
      assert false;
    }
  }

  // ---------------------------------------------------------------------
  // Extracting and inserting a field

  lemma FieldValueBits(reg: nat, numBits: nat, lowestBit: nat, k: nat)
    ensures Bit(FieldValue(reg, FieldMask(numBits, lowestBit), lowestBit), k)
        == (k < numBits && Bit(reg, k + lowestBit))
  {
    var m := FieldMask(numBits, lowestBit);
    ShrBit(And(reg, m), lowestBit, k);
    AndBit(reg, m, k + lowestBit);
    FieldMaskBits(numBits, lowestBit, k + lowestBit);
  }

  /** `value()` is always below 2^numBits. */
  lemma FieldValueBound(reg: nat, numBits: nat, lowestBit: nat)
    ensures FieldValue(reg, FieldMask(numBits, lowestBit), lowestBit) < Pow2(numBits)
  {
    var v := FieldValue(reg, FieldMask(numBits, lowestBit), lowestBit);
    forall k: nat | numBits <= k
      ensures !Bit(v, k)
    {
      FieldValueBits(reg, numBits, lowestBit, k);
    }
    BelowPow2(v, numBits);
  }

  lemma ShiftedLowBit(reg: nat, numBits: nat, lowestBit: nat, k: nat)
    ensures Bit(And(Shr(reg, lowestBit), Pow2(numBits) - 1), k) == (k < numBits && Bit(reg, k + lowestBit))
  {
    AndBit(Shr(reg, lowestBit), Pow2(numBits) - 1, k);
    LowMaskBit(numBits, k);
    ShrBit(reg, lowestBit, k);
  }

  lemma FieldValueIsShiftedLowBits(reg: nat, numBits: nat, lowestBit: nat)
    ensures FieldValue(reg, FieldMask(numBits, lowestBit), lowestBit)
        == And(Shr(reg, lowestBit), Pow2(numBits) - 1)
  {
    var v := FieldValue(reg, FieldMask(numBits, lowestBit), lowestBit);
    var w := And(Shr(reg, lowestBit), Pow2(numBits) - 1);
    forall k: nat
      ensures Bit(v, k) == Bit(w, k)
    {
      FieldValueBits(reg, numBits, lowestBit, k);
      ShiftedLowBit(reg, numBits, lowestBit, k);
    }
    BitsDetermine(v, w);
  }

  /** The field read as arithmetic: bits lowestBit .. lowestBit + numBits - 1 of reg. */
  lemma FieldValueArith(reg: nat, numBits: nat, lowestBit: nat)
    ensures FieldValue(reg, FieldMask(numBits, lowestBit), lowestBit)
        == (reg / Pow2(lowestBit)) % Pow2(numBits)
  {
    FieldValueIsShiftedLowBits(reg, numBits, lowestBit);
    ShiftMaskDivMod(reg, lowestBit);
    ShiftMaskDivMod(Shr(reg, lowestBit), numBits);
  }

  /**
   After inserting v, the field's bits are v's; a bit outside the field
   keeps its value unless v reaches past numBits bits, whose excess is
   OR-ed into the bits above the field.
   */
  lemma FieldInsertBits(reg: nat, numBits: nat, lowestBit: nat, v: nat, k: nat)
    ensures Bit(FieldInsert(reg, FieldMask(numBits, lowestBit), lowestBit, v), k)
        == if lowestBit <= k < lowestBit + numBits then Bit(v, k - lowestBit)
           else Bit(reg, k) || (lowestBit <= k && Bit(v, k - lowestBit))
  {
    var m := FieldMask(numBits, lowestBit);
    OrBit(AndNot(reg, m), Shl(v, lowestBit), k);
    AndNotBit(reg, m, k);
    ShlBit(v, lowestBit, k);
    FieldMaskBits(numBits, lowestBit, k);
  }

  /** Inserting a value that fits and reading it back gives the value. */
  lemma FieldInsertThenValue(reg: nat, numBits: nat, lowestBit: nat, v: nat)
    requires v < Pow2(numBits)
    ensures FieldValue(FieldInsert(reg, FieldMask(numBits, lowestBit), lowestBit, v), FieldMask(numBits, lowestBit), lowestBit) == v
  {
    var m := FieldMask(numBits, lowestBit);
    var y := FieldInsert(reg, m, lowestBit, v);
    forall k: nat
      ensures Bit(FieldValue(y, m, lowestBit), k) == Bit(v, k)
    {
      FieldValueBits(y, numBits, lowestBit, k);
      FieldInsertBits(reg, numBits, lowestBit, v, k + lowestBit);
      if numBits <= k {
        HighBitsClear(v, numBits, k);
      }
    }
    BitsDetermine(FieldValue(y, m, lowestBit), v);
  }

  /** Inserting the value the field already holds changes nothing. */
  lemma FieldValueThenInsert(reg: nat, numBits: nat, lowestBit: nat)
    ensures var m := FieldMask(numBits, lowestBit);
      FieldInsert(reg, m, lowestBit, FieldValue(reg, m, lowestBit)) == reg
  {
    var m := FieldMask(numBits, lowestBit);
    var v := FieldValue(reg, m, lowestBit);
    forall k: nat
      ensures Bit(FieldInsert(reg, m, lowestBit, v), k) == Bit(reg, k)
    {
      FieldInsertBits(reg, numBits, lowestBit, v, k);
      if lowestBit <= k {
        FieldValueBits(reg, numBits, lowestBit, k - lowestBit);
      }
    }
    BitsDetermine(FieldInsert(reg, m, lowestBit, v), reg);
  }

  /** A value that fits, shifted to the field, has no bit outside the field. */
  lemma ShiftedInsideField(reg: nat, numBits: nat, lowestBit: nat, v: nat, k: nat)
    requires v < Pow2(numBits)
    ensures !(Bit(AndNot(reg, FieldMask(numBits, lowestBit)), k) && Bit(Shl(v, lowestBit), k))
  {
    AndNotBit(reg, FieldMask(numBits, lowestBit), k);
    ShlBit(v, lowestBit, k);
    FieldMaskBits(numBits, lowestBit, k);
    if lowestBit + numBits <= k {
      HighBitsClear(v, numBits, k - lowestBit);
    }
  }

  /** The field's value shifted back into place is the masked register. */
  lemma FieldValueShiftedBack(reg: nat, numBits: nat, lowestBit: nat, k: nat)
    ensures var m := FieldMask(numBits, lowestBit);
      Bit(Shl(FieldValue(reg, m, lowestBit), lowestBit), k) == Bit(And(reg, m), k)
  {
    var m := FieldMask(numBits, lowestBit);
    ShlBit(FieldValue(reg, m, lowestBit), lowestBit, k);
    AndBit(reg, m, k);
    FieldMaskBits(numBits, lowestBit, k);
    if lowestBit <= k {
      FieldValueBits(reg, numBits, lowestBit, k - lowestBit);
    }
  }

  /**
   Inserting a value that fits, as arithmetic: the field's old value is
   taken out of reg and v put in its place.
   */
  lemma FieldInsertArith(reg: nat, numBits: nat, lowestBit: nat, v: nat)
    requires v < Pow2(numBits)
    ensures var m := FieldMask(numBits, lowestBit);
      FieldInsert(reg, m, lowestBit, v) + FieldValue(reg, m, lowestBit) * Pow2(lowestBit)
        == reg + v * Pow2(lowestBit)
  {
    var m := FieldMask(numBits, lowestBit);
    var e := FieldValue(reg, m, lowestBit);
    var kept := AndNot(reg, m);
    var field := And(reg, m);
    forall k: nat
      ensures !(Bit(kept, k) && Bit(Shl(v, lowestBit), k))
      ensures !(Bit(kept, k) && Bit(field, k))
      ensures Bit(Shl(e, lowestBit), k) == Bit(field, k)
      ensures Bit(Or(kept, field), k) == Bit(reg, k)
    {
      ShiftedInsideField(reg, numBits, lowestBit, v, k);
      FieldValueShiftedBack(reg, numBits, lowestBit, k);
      AndNotBit(reg, m, k);
      AndBit(reg, m, k);
      OrBit(kept, field, k);
    }
    OrDisjoint(kept, Shl(v, lowestBit));
    ShlMul(v, lowestBit);
    ShlMul(e, lowestBit);
    BitsDetermine(Shl(e, lowestBit), field);
    BitsDetermine(Or(kept, field), reg);
    OrDisjoint(kept, field);
  }

  /** Only the low m bits of a number decide a field that lies below bit m. */
  lemma FieldValueLowBits(y: nat, numBits: nat, lowestBit: nat, m: nat)
    requires numBits == 0 || lowestBit + numBits <= m
    ensures var mask := FieldMask(numBits, lowestBit);
      FieldValue(y % Pow2(m), mask, lowestBit) == FieldValue(y, mask, lowestBit)
  {
    var mask := FieldMask(numBits, lowestBit);
    ShiftMaskDivMod(y, m);
    forall k: nat
      ensures Bit(FieldValue(y % Pow2(m), mask, lowestBit), k) == Bit(FieldValue(y, mask, lowestBit), k)
    {
      FieldValueBits(y % Pow2(m), numBits, lowestBit, k);
      FieldValueBits(y, numBits, lowestBit, k);
      AndBit(y, Pow2(m) - 1, k + lowestBit);
      LowMaskBit(m, k + lowestBit);
    }
    BitsDetermine(FieldValue(y % Pow2(m), mask, lowestBit), FieldValue(y, mask, lowestBit));
  }

  // ---------------------------------------------------------------------
  // Assembling and disassembling bytes

  /** `acc << 8 | b` appends byte b to acc. */
  lemma ByteAppend(acc: nat, b: Byte)
    ensures Or(Shl(acc, 8), b) == acc * 256 + b
  {
    assert Pow2(8) == 256;
    forall k: nat
      ensures !(Bit(Shl(acc, 8), k) && Bit(b, k))
    {
      ShlBit(acc, 8, k);
      if 8 <= k {
        HighBitsClear(b, 8, k);
      }
    }
    OrDisjoint(Shl(acc, 8), b);
    ShlMul(acc, 8);
  }

  /** Appending a byte to a number of n - 1 bytes gives a number of n bytes. */
  lemma AppendBound(acc: nat, b: Byte, n: nat)
    requires 1 <= n && acc < Pow2(8 * (n - 1))
    ensures Or(Shl(acc, 8), b) < Pow2(8 * n)
  {
    ByteAppend(acc, b);
    Pow2Bytes(n);
    MulLe(acc + 1, Pow2(8 * (n - 1)), 256);
  }

  /** One more byte multiplies the range by 256. */
  lemma Pow2Bytes(n: nat)
    requires 1 <= n
    ensures Pow2(8 * n) == Pow2(8 * (n - 1)) * 256
  {
    var m := 8 * (n - 1);
    assert m + 8 == 8 * n;
    Pow2Add(m, 8);
    assert Pow2(8) == 256;
  }

  /** The fold is the big-endian value of the bytes the order visits. */
  lemma {:induction false} FoldIsBigEndian(buf: seq<Byte>, order: seq<int>)
    ensures FoldAt(buf, order) == BigEndian(Gather(buf, order))
    decreases |order|
  {
    if order != [] {
      var n := |order|;
      FoldIsBigEndian(buf, order[..n - 1]);
      assert Gather(buf, order)[..n - 1] == Gather(buf, order[..n - 1]);
      ByteAppend(FoldAt(buf, order[..n - 1]), Get(buf, order[n - 1]));
    }
  }

  lemma LowByte(x: nat)
    ensures Shr(x, 8) == x / 256 && And(x, 0xFF) == x % 256
  {
    assert Pow2(8) == 256;
    ShiftMaskDivMod(x, 8);
  }

  /**
   Disassembling the number the bytes assemble to, along the same order,
   writes every byte back as it was.
   */
  lemma {:induction false} UnfoldFold(buf: seq<Byte>, order: seq<int>)
    ensures UnfoldInto(buf, order, FoldAt(buf, order)) == buf
    decreases |order|
  {
    if order != [] {
      var n := |order|;
      var j, pre := order[n - 1], order[..n - 1];
      var acc := FoldAt(buf, pre);
      var b := Get(buf, j);
      var x := FoldAt(buf, order);
      assert x == Or(Shl(acc, 8), b);
      ByteAppend(acc, b);
      LowByte(x);
      DivModUnique(x, 256, acc, b);
      assert And(x, 0xFF) == b && Shr(x, 8) == acc;
      SetGet(buf, j);
      assert UnfoldInto(buf, order, x) == UnfoldInto(buf, pre, acc);
      UnfoldFold(buf, pre);
    }
  }

  lemma ModCombine(x: nat, p: nat)
    requires p >= 1
    ensures ((x / 256) % p) * 256 + x % 256 == x % (p * 256)
  {
    var q, s := (x / 256) / p, (x / 256) % p;
    assert x / 256 == q * p + s;
    assert x == (q * p + s) * 256 + x % 256;
    assert x == q * (p * 256) + (s * 256 + x % 256);
    DivModUnique(x, p * 256, q, s * 256 + x % 256);
  }

  /** The low n - 1 bytes of x / 256 above the low byte of x make the low n bytes of x. */
  lemma LowBytes(x: nat, n: nat)
    requires 1 <= n
    ensures ((x / 256) % Pow2(8 * (n - 1))) * 256 + x % 256 == x % Pow2(8 * n)
  {
    Pow2Bytes(n);
    ModCombine(x, Pow2(8 * (n - 1)));
  }

  /**
   Along distinct indexes inside the buffer, disassembling x and
   assembling again gives back the low 8 * |order| bits of x.
   */
  lemma {:induction false} FoldUnfold(buf: seq<Byte>, order: seq<int>, x: nat)
    requires Indexes(order, |buf|)
    ensures FoldAt(UnfoldInto(buf, order, x), order) == x % Pow2(8 * |order|)
    decreases |order|
  {
    if order != [] {
      var n := |order|;
      var j, pre := order[n - 1], order[..n - 1];
      var lo, hi := And(x, 0xFF), Shr(x, 8);
      LowByte(x);
      var res := UnfoldInto(Set(buf, j, lo), pre, hi);
      assert res == UnfoldInto(buf, order, x);
      assert j !in pre;
      assert Get(res, j) == lo;
      var p := Pow2(8 * (n - 1));
      FoldUnfold(Set(buf, j, lo), pre, hi);
      assert FoldAt(res, pre) == (x / 256) % p;
      ByteAppend(FoldAt(res, pre), lo);
      assert FoldAt(res, order) == ((x / 256) % p) * 256 + x % 256;
      LowBytes(x, n);
    }
  }

  // ---------------------------------------------------------------------
  // A whole read or write of the field

  /**
   Along distinct indexes of the buffer, for a mask that fits the bits the
   order covers: after `setValue(v)`, a bit outside the field keeps its
   value unless v has more than numBits bits; a bit inside holds v's bit.
   */
  lemma WriteFieldBits(buf: seq<Byte>, order: seq<int>, numBits: nat, lowestBit: nat, v: nat, k: nat)
    requires Indexes(order, |buf|)
    ensures var after := FoldAt(WriteField(buf, order, FieldMask(numBits, lowestBit), lowestBit, v), order);
      Bit(after, k) == (k < 8 * |order| &&
        if lowestBit <= k < lowestBit + numBits then Bit(v, k - lowestBit)
        else Bit(FoldAt(buf, order), k) || (lowestBit <= k && Bit(v, k - lowestBit)))
  {
    var m := FieldMask(numBits, lowestBit);
    var y := FieldInsert(FoldAt(buf, order), m, lowestBit, v);
    FoldUnfold(buf, order, y);
    ModPow2Bit(y, 8 * |order|, k);
    FieldInsertBits(FoldAt(buf, order), numBits, lowestBit, v, k);
  }

  /**
   Along distinct indexes of the buffer, for a mask that fits the bits the
   order covers: `setValue(v)` with a v that fits, then `value()` along the
   same order, gives v.
   */
  lemma WriteThenRead(buf: seq<Byte>, order: seq<int>, numBits: nat, lowestBit: nat, v: nat)
    requires Indexes(order, |buf|)
    requires FieldMask(numBits, lowestBit) < Pow2(8 * |order|)
    requires v < Pow2(numBits)
    ensures var m := FieldMask(numBits, lowestBit);
      ReadField(WriteField(buf, order, m, lowestBit, v), order, m, lowestBit) == v
  {
    var m := FieldMask(numBits, lowestBit);
    var y := FieldInsert(FoldAt(buf, order), m, lowestBit, v);
    var written := WriteField(buf, order, m, lowestBit, v);
    assert written == UnfoldInto(buf, order, y);
    FieldFits(numBits, lowestBit, 8 * |order|);
    FoldUnfold(buf, order, y);
    assert FoldAt(written, order) == y % Pow2(8 * |order|);
    FieldValueLowBits(y, numBits, lowestBit, 8 * |order|);
    FieldInsertThenValue(FoldAt(buf, order), numBits, lowestBit, v);
  }

  /** `setValue(value())` along one order writes back the very same buffer. */
  lemma ReadThenWrite(buf: seq<Byte>, order: seq<int>, numBits: nat, lowestBit: nat)
    ensures var m := FieldMask(numBits, lowestBit);
      WriteField(buf, order, m, lowestBit, ReadField(buf, order, m, lowestBit)) == buf
  {
    FieldValueThenInsert(FoldAt(buf, order), numBits, lowestBit);
    UnfoldFold(buf, order);
  }

  lemma DownIndexes(len: nat)
    ensures Indexes(Down(len - 1, 0), len)
  {
  }

  /**
   Unfolding along the first m indexes of an order writes index m - 1
   first, with the lowest byte, and goes on along the first m - 1.
   */
  lemma UnfoldLast(buf: seq<Byte>, order: seq<int>, m: nat, reg: nat)
    requires 1 <= m <= |order|
    ensures UnfoldInto(Set(buf, order[m - 1], And(reg, 0xFF)), order[..m - 1], Shr(reg, 8))
        == UnfoldInto(buf, order[..m], reg)
  {
    assert order[..m][..m - 1] == order[..m - 1];
  }

  /**
   Least-significant byte first, for a field that passes the width check:
   `setValue(v)` with a v that fits, then `value()`, gives v.
   */
  lemma LsbWriteThenRead(buf: seq<Byte>, numBits: nat, lowestBit: nat, v: nat)
    requires 1 <= |buf| && !MaskTooWide(FieldMask(numBits, lowestBit), |buf| - 1)
    requires v < Pow2(numBits)
    ensures var m := FieldMask(numBits, lowestBit);
      ReadField(WriteField(buf, SetOrder(|buf|, true), m, lowestBit, v), ValueOrder(|buf|, true), m, lowestBit) == v
  {
    var order := Down(|buf| - 1, 0);
    DownIndexes(|buf|);
    ShlMul(1, (|buf| - 1) * 8);
    Pow2Monotone(8 * (|buf| - 1), 8 * |buf|);
    WriteThenRead(buf, order, numBits, lowestBit, v);
  }

  /**
   Least-significant byte first: `setValue(value())` writes back the
   buffer it refreshed.
   */
  lemma LsbReadThenWrite(buf: seq<Byte>, numBits: nat, lowestBit: nat, v: nat)
    requires v == ReadField(buf, ValueOrder(|buf|, true), FieldMask(numBits, lowestBit), lowestBit)
    ensures WriteField(buf, SetOrder(|buf|, true), FieldMask(numBits, lowestBit), lowestBit, v) == buf
  {
    ReadThenWrite(buf, Down(|buf| - 1, 0), numBits, lowestBit);
  }

  /**
   `I2CRWBits`: an unsigned field of `numBits` bits starting at `lowestBit`
   of a register `buffer.Length - 1` bytes wide. `buffer` holds the address
   byte followed by the data bytes of the last refresh.
   */
  class I2CRWBits {
    const bitMask: nat
    const lowestBit: nat
    const buffer: array<Byte>
    const lsbFirst: bool

    ghost const numBits: nat
    /** Every byte sequence this field has put on the bus, oldest first. */
    ghost var sent: seq<seq<Byte>>

    ghost predicate Valid()
    {
      && 1 <= buffer.Length
      && bitMask == FieldMask(numBits, lowestBit)
      && !MaskTooWide(bitMask, buffer.Length - 1)
    }

    /**
     The constructor for a mask that passes the width check; `Create`
     models the constructor as a whole, failing check included.
     */
    constructor (numBits: nat, registerAddress: nat, lowestBit: nat, registerWidth: nat := 1, lsbFirst: bool := true)
      requires !MaskTooWide(FieldMask(numBits, lowestBit), registerWidth)
      ensures Valid() && fresh(buffer)
      ensures this.numBits == numBits && this.lowestBit == lowestBit && this.lsbFirst == lsbFirst
      ensures buffer[..] == [registerAddress % 256] + seq(registerWidth, _ => 0)
      ensures sent == []
    {
      bitMask := Shl(Shl(1, numBits) - 1, lowestBit);
      this.lowestBit := lowestBit;
      var buf := new Byte[1 + registerWidth](_ => 0);
      buf[0] := registerAddress % 256;
      buffer := buf;
      this.lsbFirst := lsbFirst;
      this.numBits := numBits;
      sent := [];
    }

    /**
     The source's constructor: it fails (`control.fail`) before allocating
     anything when the mask reaches past the register's width.
     */
    static method Create(numBits: nat, registerAddress: nat, lowestBit: nat, registerWidth: nat := 1, lsbFirst: bool := true)
      returns (field: Option<I2CRWBits>)
      ensures field.None? <==> MaskTooWide(FieldMask(numBits, lowestBit), registerWidth)
      ensures field.Some? ==> fresh(field.value) && fresh(field.value.buffer) && field.value.Valid()
      ensures field.Some? ==> field.value.buffer[..] == [registerAddress % 256] + seq(registerWidth, _ => 0)
      ensures field.Some? ==> field.value.numBits == numBits && field.value.lowestBit == lowestBit
      ensures field.Some? ==> field.value.lsbFirst == lsbFirst && field.value.sent == []
    {
      if Shl(Shl(1, numBits) - 1, lowestBit) >= Shl(1, registerWidth * 8) {
        return None;
      }
      var f := new I2CRWBits(numBits, registerAddress, lowestBit, registerWidth, lsbFirst);
      return Some(f);
    }

    /** `for (let i of order) reg = reg << 8 | this.buffer[i]`, from reg = 0. */
    method Fold(order: seq<int>) returns (reg: nat)
      ensures reg == FoldAt(buffer[..], order)
    {
      reg := 0;
      for t := 0 to |order|
        invariant reg == FoldAt(buffer[..], order[..t])
      {
        assert order[..t + 1][..t] == order[..t];
        reg := Or(Shl(reg, 8), Get(buffer[..], order[t]));
      }
      assert order[..|order|] == order;
    }

    /** `for (let i of reversed(order)) { this.buffer[i] = reg & 0xFF; reg >>= 8 }` */
    method Unfold(order: seq<int>, reg: nat)
      modifies buffer
      ensures buffer[..] == UnfoldInto(old(buffer[..]), order, reg)
    {
      ghost var target := UnfoldInto(buffer[..], order, reg);
      var rest := reg;
      var rev := Reversed(order);
      assert order[..|order|] == order;
      for t := 0 to |rev|
        invariant |buffer[..]| == |old(buffer[..])|
        invariant UnfoldInto(buffer[..], order[..|order| - t], rest) == target
      {
        var i := rev[t];
        ghost var before := buffer[..];
        UnfoldLast(before, order, |order| - t, rest);
        if 0 <= i < buffer.Length {
          buffer[i] := And(rest, 0xFF);
        }
        assert buffer[..] == Set(before, i, And(rest, 0xFF));
        rest := Shr(rest, 8);
      }
    }

    /** Refreshes the buffer from the device and extracts the field. */
    method Value(device: seq<Byte>) returns (r: nat)
      requires Valid() && |device| == buffer.Length - 1
      modifies buffer, this`sent
      ensures Valid()
      ensures buffer[..] == [old(buffer[0])] + device
      ensures sent == old(sent) + [[old(buffer[0])]]
      ensures r == ReadField(buffer[..], ValueOrder(buffer.Length, lsbFirst), bitMask, lowestBit)
      ensures r < Pow2(numBits)
    {
      assert buffer[..1] == [buffer[0]];
      var writes := I2cRegister.WriteThenReadInto(buffer, buffer, 1, 1, device);
      sent := sent + writes;
      var order := Range(buffer.Length - 1, 0, -1);
      if !lsbFirst {
        order := Reversed(order);
        assert order == Up(0, buffer.Length - 1);
      }
      var reg := Fold(order);
      r := Shr(And(reg, bitMask), lowestBit);
      FieldValueBound(reg, numBits, lowestBit);
    }

    /**
     Refreshes the buffer from the device, replaces the field and writes
     the whole buffer, address byte included.
     */
    method SetValue(device: seq<Byte>, value: nat)
      requires Valid() && |device| == buffer.Length - 1
      modifies buffer, this`sent
      ensures Valid()
      ensures buffer[..] == WriteField([old(buffer[0])] + device, SetOrder(buffer.Length, lsbFirst), bitMask, lowestBit, value)
      ensures sent == old(sent) + [[old(buffer[0])]] + [buffer[..]]
    {
      var shifted := Shl(value, lowestBit);
      assert buffer[..1] == [buffer[0]];
      var writes := I2cRegister.WriteThenReadInto(buffer, buffer, 1, 1, device);
      assert writes == [[old(buffer[0])]];
      sent := sent + writes;
      ghost var refreshed := buffer[..];
      var order := Range(buffer.Length - 1, 0, -1);
      if !lsbFirst {
        order := Range(1, buffer.Length);
      }
      assert order == SetOrder(buffer.Length, lsbFirst);
      var reg := Fold(order);
      reg := AndNot(reg, bitMask);
      reg := Or(reg, shifted);
      assert reg == FieldInsert(FoldAt(refreshed, order), bitMask, lowestBit, value);
      Unfold(order, reg);
      sent := sent + [buffer[..]];
    }
  }
}

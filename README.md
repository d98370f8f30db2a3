# pxt-register in Dafny

A model of the register-field accessors of the MakeCode (PXT) `pxt-register`
package. These accessors expose a bit, or a run of bits, of an I2C device
register as a plain value:

- `RWBit` (`i2cbit.ts`) reads and writes one boolean bit.
- `I2CRWBits` (`i2cbits.ts`) reads and writes an unsigned field of
  `num_bits` bits, starting at `lowest_bit`, of a register one or more bytes
  wide.

Each accessor owns a buffer. Its byte 0 is the register address and the
remaining `register_width` bytes are the data. Every access does the same
steps:

1. Refresh the data. `write_then_readinto` sends the address byte and reads
   the data bytes back into the buffer from index 1.
2. For a write, change the data bytes in memory.
3. For a write, send the whole buffer, address byte included.

The modules are:

- `Bitwise` (`bitwise.dfy`) gives the JavaScript operators `&`, `|`, `& ~`,
  `<<` and `>>` a meaning on naturals. It adds a bit view, `Bit(x, k)`, and
  the lemmas that turn bit facts into arithmetic.
- `Pxt` (`pxt_buffer.dfy`) holds the byte buffer rules of the PXT runtime.
  A read outside the buffer gives 0. A write outside it is ignored.
- `I2cRegister` (`i2cbit.dfy`) holds `write_then_readinto` and the class
  `RWBit`.
- `Register` (`i2cbits.dfy`) holds `range`, `reversed` and the class
  `I2CRWBits`. Pure functions specify the class:
  - `FoldAt` assembles the buffer into a register value along an index order.
  - `UnfoldInto` writes a value back along that order.
  - `FieldValue` and `FieldInsert` extract and replace the field.
  - `ReadField` and `WriteField` are what `value()` returns and what
    `setValue()` writes.
- `RegisterFindings` (`i2cbits_findings.dfy`) shows two places where
  `I2CRWBits` uses the wrong indexes. It also defines the intended data-byte
  order and proves the intended properties about it.

The device side of the bus is a parameter: the data bytes a read returns.
Each class keeps a ghost log, `sent`, of every byte sequence it has put on
the bus. The classes follow the code as written, including the two index
errors listed under "## Findings".

The intended behaviour and the code disagree, and the model follows the
code:

- Intended: both read paths assemble only the data bytes `buffer[1..]`.
  For example, `[0x34, 0x12]` should give `0x1234` least significant byte
  first.
- The code's `range` includes its end, so the address byte is assembled too.
- `RegisterFindings.TwoByteOrders` states both readings on that example.

## Model

| member | source | states |
|---|---|---|
| Bitwise.AndBit | i2cbits.ts:66 | bit k of `a & b` is set iff bit k is set in both a and b |
| Bitwise.OrBit | i2cbits.ts:64 | bit k of a OR b is set iff bit k is set in a or in b |
| Bitwise.AndNotBit | i2cbits.ts:86 | bit k of `a & ~b` is set iff it is set in a and clear in b |
| Bitwise.ShlBit | i2cbits.ts:72 | `x << s` moves bit k - s of x to bit k and clears the s lowest bits |
| Bitwise.ShrBit | i2cbits.ts:66 | `x >> s` moves bit k + s of x to bit k |
| Bitwise.ShiftMaskDivMod | i2cbits.ts:91-92 | `x >> s` is x / 2^s and `x & (2^s - 1)` is x % 2^s, so `reg & 0xFF` and `reg >>= 8` take off the low byte |
| Pxt.Set | i2cbits.ts:91 | a buffer write changes only index i and only when i is inside the buffer; the length is kept |
| I2cRegister.WriteThenReadInto | i2cbit.ts:3-8 | it sends `outBuffer[0..outEnd)`, clamped to the buffer, only when outEnd > 0; `inBuffer` keeps its bytes before inStart and holds the device's bytes from there on |
| I2cRegister.ByteIndex | i2cbit.ts:33-39 | a bit inside the register selects a data byte, never the address; the formula is not guarded, so a bit past the register selects an index past the buffer (lsb first) or the address byte (msb first, in the next 8 bits) |
| I2cRegister.BitMask | i2cbit.ts:30 | `1 << bit % 8` is a byte with exactly bit `bit % 8` set |
| I2cRegister.TestBitMask | i2cbit.ts:45 | `!!(b & mask)` is true iff bit `bit % 8` of b is set |
| I2cRegister.Update | i2cbit.ts:51-55 | OR-ing in the mask or `&= ~mask` sets the bits under the mask to v and keeps every other bit of the byte |
| I2cRegister.SetBitEffect | i2cbit.ts:48-58 | for a bit inside the register, setValue changes only one data byte and only the target bit in it; the address byte is kept and the bit then reads v |
| I2cRegister.SetBitIdempotent | i2cbit.ts:51-55 | setting a bit to the value it already has leaves the buffer unchanged |
| I2cRegister.SetBitExample | i2cbit.ts:51-55 | register 0x10, bit 3: setting it in a zero byte gives 8, and clearing it gives 0 again |
| I2cRegister.RWBit.constructor | i2cbit.ts:28-40 | the mask and byte index are derived from bit, width and order; the buffer is the address mod 256 followed by width zero bytes |
| I2cRegister.RWBit.Value | i2cbit.ts:42-46 | the buffer is refreshed from the device, only the address byte is sent, and the result is bit `bit % 8` of the addressed data byte |
| I2cRegister.RWBit.SetValue | i2cbit.ts:48-58 | the refreshed buffer gets the bit set or cleared; the log gains the address byte and then the whole buffer; for a bit inside the register the address is kept and the bit reads v |
| Register.Up | i2cbits.ts:5-6 | counting up gives lo, lo + 1, ..., hi, so hi - lo + 1 elements and none when lo > hi |
| Register.Down | i2cbits.ts:8-9 | counting down gives hi, hi - 1, ..., lo, so hi - lo + 1 elements and none when hi < lo |
| Register.Range | i2cbits.ts:2-11 | `range` counts from start to end with both ends included, up when interval > 0 and down otherwise |
| Register.Reversed | i2cbits.ts:13-17 | `reversed` returns the same elements in the opposite order |
| Register.FieldMaskBits | i2cbits.ts:38 | the mask has exactly the bits lowest_bit .. lowest_bit + num_bits - 1 |
| Register.MaskTooWideIff | i2cbits.ts:40-42 | the constructor fails iff the field is non-empty and reaches past bit 8 * register_width - 1 |
| Register.FieldFits | i2cbits.ts:40 | a mask below 2^width means the field lies inside bits 0 .. width - 1 |
| Register.FieldValueBits | i2cbits.ts:66 | bit k of the field value is bit lowest_bit + k of the register, for k < num_bits, and clear above |
| Register.FieldValueBound | i2cbits.ts:66 | `value()` is always below 2^num_bits |
| Register.FieldValueArith | i2cbits.ts:66 | the field value is (reg / 2^lowest_bit) % 2^num_bits |
| Register.FieldInsertBits | i2cbits.ts:86-88 | after inserting v, the field bits are v's; other bits keep their value except where v has bits above num_bits, which are OR-ed in |
| Register.FieldInsertThenValue | i2cbits.ts:86-88 | inserting a v below 2^num_bits and extracting again gives v |
| Register.FieldValueThenInsert | i2cbits.ts:86-88 | inserting the value the field already holds gives back the register |
| Register.FieldInsertArith | i2cbits.ts:86-88 | inserting a v that fits takes the field's old value out of reg and adds v, both shifted by lowest_bit |
| Register.FieldValueLowBits | i2cbits.ts:66 | bits above the field do not affect the extracted value |
| Register.ByteAppend | i2cbits.ts:64 | shifting reg left by 8 and OR-ing in byte b gives reg * 256 + b |
| Register.FoldAt | i2cbits.ts:63-65 | the assembled value has at most 8 bits per byte visited |
| Register.FoldIsBigEndian | i2cbits.ts:63-65 | the assembled value is the big-endian number spelled by the bytes the order visits |
| Register.UnfoldInto | i2cbits.ts:90-93 | writing a value back keeps the buffer's length and every index outside the order |
| Register.LowByte | i2cbits.ts:91-92 | `reg & 0xFF` is reg % 256 and `reg >> 8` is reg / 256 |
| Register.UnfoldFold | i2cbits.ts:90-93 | writing back the value just assembled, along the same order, leaves the buffer unchanged |
| Register.FoldUnfold | i2cbits.ts:90-93 | along distinct indexes inside the buffer, writing x and assembling again gives the low 8 bits of x per index |
| Register.WriteFieldBits | i2cbits.ts:70-96 | after setValue(v), along distinct indexes inside the buffer, the register has v's bits in the field; the other bits keep their value, except bits above the register (lost) and v's own bits above num_bits |
| Register.WriteThenRead | i2cbits.ts:70-96 | along distinct indexes, for a mask that fits and v < 2^num_bits, setValue(v) then value() gives v |
| Register.ReadThenWrite | i2cbits.ts:50-96 | setValue(value()) along one order writes back the same buffer |
| Register.DownIndexes | i2cbits.ts:58 | `range(length - 1, 0, -1)` visits distinct indexes inside the buffer |
| Register.LsbWriteThenRead | i2cbits.ts:58-96 | lsb first, for a mask that passes the constructor check, setValue(v) then value() gives v |
| Register.LsbReadThenWrite | i2cbits.ts:58-96 | lsb first, setValue(value()) writes back the refreshed buffer unchanged |
| Register.I2CRWBits.constructor | i2cbits.ts:37-48 | for a mask that passes the check, it stores the mask, lowest bit and order; the buffer is the address mod 256 followed by width zero bytes |
| Register.I2CRWBits.Create | i2cbits.ts:37-48 | construction fails iff the mask reaches `1 << register_width * 8`; otherwise it gives a fresh valid field holding the given num_bits, lowest_bit and byte order, with the address mod 256 followed by zero bytes and nothing sent yet |
| Register.I2CRWBits.Fold | i2cbits.ts:63-65 | the loop that shifts reg left by 8 and ORs in `buffer[i]` computes FoldAt along the order |
| Register.I2CRWBits.Unfold | i2cbits.ts:90-93 | the loop over `reversed(order)` leaves the buffer equal to UnfoldInto along the order |
| Register.I2CRWBits.Value | i2cbits.ts:50-67 | the buffer is refreshed from the device and only the address byte is sent; the result is ReadField along value()'s order and is below 2^num_bits |
| Register.I2CRWBits.SetValue | i2cbits.ts:70-96 | the buffer becomes WriteField of the refreshed buffer along setValue()'s order; the log gains the address byte and then the whole buffer |
| RegisterFindings.DataOrder | i2cbits.ts:58 | the intended order has one index per data byte, register_width in all |
| RegisterFindings.LsbFoldIncludesAddress | i2cbits.ts:58 | lsb first, value() assembles the data's register shifted up one byte, with the address byte as the lowest byte |
| RegisterFindings.MsbSetFoldShifted | i2cbits.ts:78 | msb first, setValue() assembles the data's register shifted up one byte, with a zero (read past the end) as the lowest byte |
| RegisterFindings.LsbFirstReadExample | i2cbits.ts:58-66 | register 0x14, data 0xC3, 3-bit field at bit 2: value() assembles 0xC314 and returns 5, taken from the address byte |
| RegisterFindings.LsbFirstWriteExample | i2cbits.ts:76-93 | the same field: setValue(2) gives the buffer [0x08, 0xC3], overwriting the address byte |
| RegisterFindings.MsbFirstWriteExample | i2cbits.ts:78-93 | register 0x10, data 0x00, 1-bit field at bit 0, msb first: setValue(1) writes the buffer back unchanged |
| RegisterFindings.MsbFirstReadExample | i2cbits.ts:58-66 | the same field: value() still reads 0 |
| RegisterFindings.LsbFirstExampleCorrected | i2cbits.ts:58 | along the data bytes, the first example reads 0, and setValue(2) gives [0x14, 0xCB] |
| RegisterFindings.MsbFirstExampleCorrected | i2cbits.ts:78 | along the data bytes, the second example's setValue(1) gives [0x10, 0x01] |
| RegisterFindings.TwoByteOrders | i2cbits.ts:58-65 | data bytes 0x34, 0x12 assemble to 0x1234 (lsb first) and 0x3412 (msb first) along the data bytes, but to 0x123420 along value()'s lsb order |
| RegisterFindings.CorrectedKeepsAddress | i2cbits.ts:90-93 | along the data bytes, setValue keeps the buffer's length and the address byte |
| RegisterFindings.DataIndexes | i2cbits.ts:58 | the data order visits distinct indexes inside the buffer and never index 0 |
| RegisterFindings.MaskFitsData | i2cbits.ts:40 | a mask that passes the check is below 2^(8 * number of data bytes), in both orders |
| RegisterFindings.CorrectedWriteThenRead | i2cbits.ts:70-96 | along the data bytes, in either order, for a mask that passes the check and v < 2^num_bits, setValue(v) then value() gives v |
| RegisterFindings.CorrectedReadThenWrite | i2cbits.ts:50-96 | along the data bytes, in either order, setValue(value()) writes back the same buffer |
| RegisterFindings.CorrectedWriteBits | i2cbits.ts:86-93 | along the data bytes, for a mask that passes the check and a v that fits, the field bits become v's and every other register bit is unchanged |
| RegisterFindings.MsbValueAgrees | i2cbits.ts:58-66 | msb first, value() as written equals the data-byte read: the address byte sits above every bit the mask can reach |

## Left out

- Bus I/O is not modelled as effects. `i2cDev.begin()`, `i2c.end()`, the
  `releaseAfter` flags and the wire protocol are left out. The device's
  answer is a parameter, and what is sent is the ghost `sent` log.
  - The model says nothing about `RWBit.value` never calling `i2c.end()`,
    because bus release is outside it.
- `write_then_readinto` checks `outBuffer` and `inBuffer` for null. Dafny
  arrays cannot be null, so those branches are left out.
- Concurrency, and other bus users writing between the read and the write
  of a `setValue`, are left out. The core is single-threaded.
- Register.FoldAt: does not model 32-bit wrap-around. JavaScript `<<`, `|`,
  `&` and `>>` work on 32-bit signed integers. The model uses unbounded
  naturals. The two agree when `num_bits + lowest_bit <= 31` and
  `register_width <= 3`:
  - The mask is then positive and below 2^31, and `1 << register_width * 8`
    does not wrap.
  - A 3-byte register is assembled from 4 bytes as written, because the
    address byte is included. That value can have bit 31 set, and it is
    negative in JavaScript.
  - The results still agree, because only the low 32 bits of the fold are
    ever used. The mask keeps bits below 31, and the write-back takes 4
    bytes from the low end.
  - Registers of 4 bytes or more lose their top bits in JavaScript, and the
    model does not.
- Register.I2CRWBits.Value: does not model 32-bit wrap-around, for the same
  reason as FoldAt.
- Register.I2CRWBits.SetValue: does not model 32-bit wrap-around. That
  covers `value << lowest_bit` too.
- Register.I2CRWBits.Create: does not model 32-bit wrap-around.
  - JavaScript takes shift counts mod 32, so `1 << register_width * 8`
    wraps for registers of 4 bytes or more.
  - The mask itself wraps when the field reaches bit 31 or beyond. With
    `num_bits = 1, lowest_bit = 31` it is -2^31. With `num_bits = 32` it is
    `(1 << 32) - 1`, which is 0.
  - Such fields pass the source's check even on a 1-byte register. The
    model's Create returns None for them there, as MaskTooWideIff states.
- Negative arguments are left out. Bit positions, widths, register
  addresses and values are naturals in the model.
- Buffer writes and the register address are kept as bytes. The address is
  stored mod 256.
- `reversed` reverses a copy in place with `Array.prototype.reverse`. It is
  modelled as a loop of swaps on a fresh array, and its result is compared
  with the input, not with the library call.
- `value()` reverses the order in place with `order.reverse()` when the
  order is most significant byte first. The model uses `Reversed`, which
  copies the order first. The order is a local list, so nothing else
  observes the difference.
- I2cRegister.RWBit.SetValue: for a bit outside the register, the model
  states only the buffer update through the PXT out-of-range rules. It
  states no further property, because the source does not guard that case.

## Findings

| source | as written | input that shows it | evidently intended | confidence | as-written member | corrected member |
|---|---|---|---|---|---|---|
| i2cbits.ts:58 | least significant byte first, `range(this.buffer.length - 1, 0, -1)` includes index 0, so `value()` and `setValue()` (same range at line 76) treat the address byte as the register's lowest byte and `setValue()` writes into it | register 0x14, data byte 0xC3, 3-bit field at bit 2: `value()` returns 5 although the data holds 0, and `setValue(2)` turns the buffer into [0x08, 0xC3] | visit the data indexes register_width .. 1 only | not executed; the model exhibits it for every buffer | RegisterFindings.LsbFoldIncludesAddress, RegisterFindings.LsbFirstReadExample, RegisterFindings.LsbFirstWriteExample | RegisterFindings.DataOrder, RegisterFindings.CorrectedWriteThenRead, RegisterFindings.LsbFirstExampleCorrected |
| i2cbits.ts:78 | most significant byte first, `setValue()` uses `range(1, this.buffer.length)`, whose end is included, so it assembles one byte past the buffer (read as 0) and writes the register back one byte too low | register 0x10, data byte 0x00, 1-bit field at bit 0: `setValue(1)` writes [0x10, 0x00] back, and `value()` then still reads 0 | visit the data indexes 1 .. register_width only | not executed; the model exhibits it for every buffer | RegisterFindings.MsbSetFoldShifted, RegisterFindings.MsbFirstWriteExample | RegisterFindings.DataOrder, RegisterFindings.CorrectedWriteThenRead, RegisterFindings.MsbFirstExampleCorrected |

Most significant byte first, `value()` also visits index 0. That is
harmless: the mask check keeps the field below the address byte
(`RegisterFindings.MsbValueAgrees`).

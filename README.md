# lwutil codecs in Dafny

This project models the core of lwutil, a small C utility library for embedded
code, and proves properties of the model. It covers four parts:

- **Fixed-width codec** (`lwutil.c`): `lwutil_st_u16_le`, `lwutil_st_u32_le`,
  `lwutil_st_u16_be` and `lwutil_st_u32_be` store a `uint16_t` or `uint32_t`
  into the first 2 or 4 bytes of a caller's array. `lwutil_ld_u16_le` and the
  other three loads read a value back from those bytes.
- **Varint codec** (`lwutil/src/lwutil/lwutil.c`): `lwutil_st_u32_varint` and
  `lwutil_ld_u32_varint` handle unsigned LEB128, the format of section 7.6 of
  the DWARF 4 standard and the Protocol Buffers "varint". Each byte carries 7
  data bits, least significant group first. Bit 7 set means another byte
  follows. Both functions bound their accesses by `ptr_len` and report failure
  by returning 0.
- **Hex formatters** (`lwutil/src/lwutil/lwutil.c`): `lwutil_u8_to_2asciis`,
  `lwutil_u16_to_4asciis` and `lwutil_u32_to_8asciis` write 2, 4 or 8
  lowercase hex digits followed by a NUL.
- **Value macros** (`lwutil/src/include/lwutil/lwutil.h`): the five bit-mask
  macros, and `LWUTIL_MAX`, `LWUTIL_MIN` and `LWUTIL_ABS`.

Files:

- `common.dfy` (module `Common`) holds the C integer types `u8`, `u16` and
  `u32` as subsets of `int`. It also holds `Pow2`, `Shr` (`x >> n` on an
  unsigned value), a bitwise `Or` on naturals (C's `|`) and the arithmetic
  lemmas the codecs share.
- `endian.dfy` (module `Endian`) has the fixed-width codec.
  - Stores are methods that write an `array<u8>` in place. Each states the
    bytes it writes and that every later byte keeps its value.
  - Loads are functions of the bytes.
  - Each byte order has an independent reference meaning: `LeBytes`/`LeValue`
    and `BeBytes`/`BeValue`. Round trips are proved in both directions, and the
    big-endian forms are proved to be byte-reversals of the little-endian ones.
- `varint.dfy` (module `Varint`) has the varint codec.
  - It defines the reference encoding `Encode`, its length `Groups` and the
    reference decoding `Decode`.
  - `Terminator` finds the first byte with bit 7 clear.
  - Both library functions are methods with the source's `do … while` loops,
    proved against these definitions.
  - `VarintRoundTrip` and `StoreThenLoad` prove that loading what a successful
    store wrote gives back the count and the value.
- `hexascii.dfy` (module `HexAscii`) has the hex formatters.
  - The three formatters share one loop, `ToAsciis`, with the digit count as a
    parameter.
  - The loop writes `HexDigits(v, n)` followed by NUL. `ParseHex` is its
    inverse, proved in both directions.
- `macros.dfy` (module `Macros`) has the macros.
  - The bit-mask macros act on `bv32`. Each contract says, bit by bit, what the
    result holds.
  - `BitsEqual` (two words equal bit for bit are equal) lets the bit-level and
    word-level statements be used interchangeably.
  - MAX, MIN and ABS act on `int`.

How the C is modelled:

- **NULL.** A NULL buffer is `null` of `array?<u8>`. NULL `val_out` is
  `None`. The content of `*val_out` before and after the call are the
  parameter `valOut` and the result `valOut'`.
- **Shifts and masks.** In the varint codec and the hex formatters a right
  shift is `Shr`, `& 0x7F` is `% 0x80` and `& 0x0F` is `% 0x10`. A left shift
  truncated to 32 bits is `Shl32`. The fixed-width codec's shifts are by
  constant multiples of 8, so `LeBytes`, `BeBytes` and the stores write
  `(val >> 8k) & 0xFF` directly as `val / 0x100^k % 0x100` (for example
  `val / 0x1_0000 % 0x100` for `val >> 16`). The loads write `p[k] << 8k` as
  `p[k] * 0x100^k`.
- **The varint load's `|=`.** It is the bitwise `Or`. `OrDisjoint` proves that
  on non-overlapping bits it equals `+`.
- **Failure.** The varint functions signal failure only by the return value 0;
  there is no error kind.
- **Truncated load.** The code also writes 0 to `*val_out` on a truncated
  input, and `LdU32Varint` states that.
- **Failed store.** A store into a buffer too short for the encoding leaves the
  first `ptr_len` bytes of the encoding in the buffer and returns 0;
  `StU32Varint` states which bytes those are.
- **Documented buffer sizes.** The comment of `lwutil_ld_u32_le`
  (lwutil.c:78) asks for a "minimum 2-bytes long" input array, but the code
  reads `p[0]` to `p[3]` (lwutil.c:84). The model follows the code:
  `LdU32Le` requires at least four bytes.

## Model

| member | source | states |
|---|---|---|
| Endian.StU16Le | lwutil.c:42-48 | p[0..1] become the little-endian bytes of val, low byte first; every later byte is unchanged |
| Endian.StU32Le | lwutil.c:55-63 | p[i] becomes `(val >> 8i) & 0xFF` for i < 4; every later byte is unchanged |
| Endian.StU16Be | lwutil.c:92-98 | p[0..1] become the big-endian bytes of val, high byte first; every later byte is unchanged |
| Endian.StU32Be | lwutil.c:105-113 | p[0..3] become the bytes of val, most significant first; every later byte is unchanged |
| Endian.LdU16Le | lwutil.c:70-74 | the result is p[0] + 256·p[1], the little-endian value of the first two bytes |
| Endian.LdU32Le | lwutil.c:81-85 | the result is the sum of p[i]·256^i over the first four bytes |
| Endian.LdU16Be | lwutil.c:120-124 | the result is 256·p[0] + p[1], the big-endian value of the first two bytes |
| Endian.LdU32Be | lwutil.c:131-135 | the result is the sum of p[i]·256^(3-i) over the first four bytes |
| Endian.LeValueBound | lwutil.c:81-85 | n little-endian bytes hold a value below 2^(8n), so the loads fit their return types |
| Endian.LeRoundTrip | lwutil.c:42-85 | for v < 2^(8n), the value of the n little-endian bytes of v is v |
| Endian.LeReencode | lwutil.c:42-85 | the little-endian bytes of the value of a byte string are that string |
| Endian.BeRoundTrip | lwutil.c:92-135 | for v < 2^(8n), the value of the n big-endian bytes of v is v |
| Endian.BeReencode | lwutil.c:92-135 | the big-endian bytes of the value of a byte string are that string |
| Endian.BeIsReversedLe | lwutil.c:42-113 | the big-endian bytes of v are the little-endian bytes reversed |
| Endian.BeValueIsLeOfReversed | lwutil.c:70-135 | the big-endian value of a string is the little-endian value of its reversal |
| Endian.RoundTrip16 | lwutil.c:42-124 | loading what a 16-bit store wrote gives the value, in both orders; storing a loaded value rewrites the same two bytes |
| Endian.RoundTrip32 | lwutil.c:55-135 | loading what a 32-bit store wrote gives the value, in both orders; storing a loaded value rewrites the same four bytes |
| Endian.ByteOrders | lwutil.c:92-135 | the big-endian stores write the reverse of the little-endian ones; a big-endian load is a little-endian load of the reversed bytes |
| Endian.EndianExamples | dev/main.c:13-47 | the expected bytes and values of the store and load checks in the test program |
| Varint.Terminator | lwutil/src/lwutil/lwutil.c:111-115 | returns the index of the first byte with bit 7 clear, every earlier byte having it set; returns None exactly when every byte has it set |
| Varint.GroupsBounds | lwutil/src/lwutil/lwutil.c:147-151 | Groups(v), the byte count of the store loop, is the least n ≥ 1 with v < 2^(7n) |
| Varint.GroupsOfU32 | lwutil/src/lwutil/lwutil.c:133-151 | a 32-bit value takes 1 to 5 bytes: 1 below 2^7, 2 below 2^14, 3 below 2^21, 4 below 2^28, else 5 (each an if-and-only-if) |
| Varint.EncodeShape | lwutil/src/lwutil/lwutil.c:147-151 | the encoding has Groups(v) bytes; every byte but the last has bit 7 set and the last has it clear |
| Varint.EncodeAt | lwutil/src/lwutil/lwutil.c:148-149 | byte i of the encoding is `((v >> 7i) & 0x7F)`, with 0x80 added on every byte but the last |
| Varint.EncodeDrop | lwutil/src/lwutil/lwutil.c:148-149 | the bytes from index i on are the encoding of `v >> 7i` |
| Varint.ShiftedValue | lwutil/src/lwutil/lwutil.c:151-155 | `v >> 7i` is zero once i ≥ Groups(v) and nonzero for 0 < i < Groups(v): it decides both the loop's exit and the failure check |
| Varint.DecodeEncode | lwutil/src/lwutil/lwutil.c:101-158 | decoding the encoding of v gives v |
| Varint.DecodeBound | lwutil/src/lwutil/lwutil.c:111-115 | n bytes decode to a value below 2^(7n) |
| Varint.DecodeSnoc | lwutil/src/lwutil/lwutil.c:111-115 | reading byte n adds its data bits shifted by 7n to the decoded prefix |
| Varint.AccumulateStep | lwutil/src/lwutil/lwutil.c:113 | OR-ing in the next byte's data bits shifted by `cnt * 7`, truncated to 32 bits, extends the decoded prefix by that byte, modulo 2^32 |
| Varint.StoreStep | lwutil/src/lwutil/lwutil.c:148-151 | the byte written in iteration c is byte c of the encoding; `val >> 7` is the next shifted value and is nonzero exactly when more bytes follow |
| Varint.VarintRoundTrip | lwutil/src/lwutil/lwutil.c:101-158 | a buffer starting with the encoding of a 32-bit v has its first closing byte at Groups(v) - 1, stays within the load's shift range, and its prefix decodes to v |
| Varint.LoadIsNotInjective | lwutil/src/lwutil/lwutil.c:111-123 | the load accepts the padded encoding [0x80, 0x00] of 0, and drops the data bits of a fifth byte above bit 31 |
| Varint.VarintExamples | dev/main.c:77-115 | 150 encodes as [0x96, 0x01] and 86942 as [0x9E, 0xA7, 0x05], which decode back; [0x9E, 0xA7] has no closing byte; 86942 needs 3 bytes, more than a 2-byte buffer holds |
| Varint.StU32Varint | lwutil/src/lwutil/lwutil.c:139-158 | with no buffer or ptr_len = 0 it returns 0 and writes nothing; otherwise it writes the first min(ptr_len, L) bytes of the encoding (L = Groups(val)) and leaves every later byte unchanged; it returns L when L ≤ ptr_len and 0 otherwise |
| Varint.LdU32Varint | lwutil/src/lwutil/lwutil.c:101-124 | with no buffer, ptr_len = 0 or no val_out it returns 0 and leaves `*val_out` untouched; if byte k is the first closing byte within ptr_len, it returns k + 1 and stores the decoded bytes 0..k modulo 2^32; if there is none, it stores 0 and returns 0 |
| Varint.LoadWithoutValOut | lwutil/src/lwutil/lwutil.c:108-110 | a load with NULL val_out returns 0 and leaves val_out absent, even for a buffer of seven continuation bytes |
| Varint.StoreThenLoad | lwutil/src/lwutil/lwutil.c:101-158 | a store returns L or 0 by whether the encoding fits; when it returns L > 0, a load with any length ≥ L returns L and reproduces the value |
| HexAscii.HexValue | lwutil/src/lwutil/lwutil.c:50 | a hex digit stands for a number below 16 |
| HexAscii.HexChar | lwutil/src/lwutil/lwutil.c:50 | a nibble becomes a lowercase hex digit whose value is the nibble |
| HexAscii.HexDigitAt | lwutil/src/lwutil/lwutil.c:47-51 | digit i of the n-digit text of v encodes nibble n-1-i of v: most significant first, zero padded |
| HexAscii.HexDigitsAreHexText | lwutil/src/lwutil/lwutil.c:47-51 | every character the formatters write before the NUL is '0'..'9' or 'a'..'f' |
| HexAscii.ParseHexDigits | lwutil/src/lwutil/lwutil.c:46-86 | for v < 16^n, parsing the n-digit text of v gives v |
| HexAscii.HexDigitsOfParse | lwutil/src/lwutil/lwutil.c:46-86 | formatting the value of a hex text with as many digits gives the text back |
| HexAscii.FormattersRoundTrip | lwutil/src/lwutil/lwutil.c:46-86 | the text of each formatter (2 digits of a u8, 4 of a u16, 8 of a u32) parses back to its input |
| HexAscii.U32Examples | dev/main.c:64-65 | 0x12345678 formats as "12345678" |
| HexAscii.U32PaddedExample | dev/main.c:66-67 | 0x5678 formats as "00005678" |
| HexAscii.U16Examples | dev/main.c:68-71 | 0x1256 and 0x156 format as "1256" and "0156" |
| HexAscii.U8Examples | dev/main.c:72-75 | 0x16 and 0x6 format as "16" and "06" |
| HexAscii.ToAsciis | lwutil/src/lwutil/lwutil.c:78-85 | the shared loop writes the n digits of the value to ascii[0..n-1] and NUL to ascii[n]; nothing past index n changes |
| HexAscii.U8To2Asciis | lwutil/src/lwutil/lwutil.c:46-54 | writes the 2 digits of hex and NUL at index 2; nothing past index 2 changes |
| HexAscii.U16To4Asciis | lwutil/src/lwutil/lwutil.c:62-70 | writes the 4 digits of hex and NUL at index 4; nothing past index 4 changes |
| HexAscii.U32To8Asciis | lwutil/src/lwutil/lwutil.c:78-86 | writes the 8 digits of hex and NUL at index 8; nothing past index 8 changes |
| Macros.BitsEqual | lwutil/src/include/lwutil/lwutil.h:108-156 | two words that agree on every bit are equal, so the bitwise contracts determine the macro results |
| Macros.BitsIsSetAll | lwutil/src/include/lwutil/lwutil.h:108-115 | true exactly when every bit of the mask is set in val; true for the zero mask |
| Macros.BitsIsSetAny | lwutil/src/include/lwutil/lwutil.h:117-124 | true exactly when some bit is set in both the mask and val |
| Macros.BitsSet | lwutil/src/include/lwutil/lwutil.h:126-134 | every bit of the mask is set in the result; every other bit is that of val |
| Macros.BitsClear | lwutil/src/include/lwutil/lwutil.h:136-145 | no bit of the mask is set in the result; every other bit is that of val |
| Macros.BitsToggle | lwutil/src/include/lwutil/lwutil.h:147-156 | the result differs from val in exactly the bits of the mask |
| Macros.SetAllImpliesSetAny | lwutil/src/include/lwutil/lwutil.h:108-124 | for a nonzero mask, having all its bits set implies having one set |
| Macros.SetThenIsSetAll | lwutil/src/include/lwutil/lwutil.h:108-134 | after setting a mask, all of its bits are set |
| Macros.ClearThenNotSetAny | lwutil/src/include/lwutil/lwutil.h:117-145 | after clearing a mask, none of its bits is set |
| Macros.ClearAfterSet | lwutil/src/include/lwutil/lwutil.h:126-145 | clearing after setting the same mask equals clearing alone |
| Macros.ToggleTwice | lwutil/src/include/lwutil/lwutil.h:147-156 | toggling twice with the same mask gives val back |
| Macros.BitsExamples | dev/main.c:49-60 | the set, clear and toggle results checked by the test program |
| Macros.Max | lwutil/src/include/lwutil/lwutil.h:59-65 | returns one of its inputs, and it is at least both |
| Macros.Min | lwutil/src/include/lwutil/lwutil.h:67-73 | returns one of its inputs, and it is at most both |
| Macros.Abs | lwutil/src/include/lwutil/lwutil.h:75-87 | the result is non-negative and is x or -x |
| Macros.AbsOfSignedWidth | lwutil/src/include/lwutil/lwutil.h:78-83 | the absolute value of a w-bit signed value fits the unsigned w-bit type; it fits the signed type exactly when the input is not the minimum -2^(w-1) |
| Macros.MinMaxExamples | dev/main.c:116-130 | the MIN/MAX results checked by the test program, nested calls included |

## Left out

- dev/main.c and dev/VisualStudio/main.c are printf-based test programs. They are used only as the source of the example lemmas. The CONSTRAIN and MAP checks in dev/main.c:132-154 use macros that no header here defines.
- lwutil.h (root) holds prototypes and a second copy of MIN, MAX and ABS, which are modelled once from the other header. Its CONCAT and COMPILE_TIME_ASSERT refer to names that are not defined.
- `LWUTIL_ARRAYSIZE` depends on `sizeof`, so it has no value-level meaning.
- `LWUTIL_UNUSED(x)` expands to `(void)(a)` rather than using its argument, so it has no value to model.
- `LWUTIL_CONCAT` and `LWUTIL_COMPILE_TIME_ASSERT` work at compile time, and the latter uses the undefined `LWUTIL_CONCAT2`.
- The C macros evaluate their operands twice. This only matters for operands with side effects, which a value model does not have.
- Macros.BitsIsSetAll: the bit macros are generic over C integer types. They are modelled at 32 bits only, which is the width the test program uses. The same holds for the other bit macros.
- Macros.Max: MAX, MIN and ABS are modelled on unbounded integers: C's usual arithmetic conversions between mixed operand types are not modelled. The fixed-width overflow of ABS that the header warns about is stated by AbsOfSignedWidth.
- Varint.LdU32Varint: when the buffer and val_out are both given, it requires `WithinShiftRange`: the first closing byte comes within the first 5 bytes, or ptr_len ≤ 5. A NULL val_out is accepted with any buffer, since the source returns before reading.
  - On longer runs of continuation bytes, the source shifts a `uint32_t` by 35 or more, which is undefined behaviour in C. No definite result can be modelled for those inputs.
  - Every input the source handles with a defined result is covered.
- Varint.StU32Varint and Varint.LdU32Varint: the source returns a `uint8_t` from a `size_t` count. Counts are at most 5, so the narrowing never changes a value, but it is not modelled separately.
- Endian.LdU16Le, Endian.LdU32Le, Endian.LdU16Be and Endian.LdU32Be:
  - They read a `seq<u8>`, the contents of the buffer, rather than a pointer. So a load cannot change the buffer, as the `const void*` promises.
  - The byte-aligned `|` of the source is written as `+`; the shifted bytes do not overlap.
  - `p[3] << 24` in the source is computed in `int` after promotion, and its conversion back to `uint32_t` is not modelled: for p[3] ≥ 0x80 the C shift overflows `int`.
- Endian.StU16Le: the stores take a non-null array of at least 2 or 4 bytes, the source's unchecked precondition. The other three stores do the same.
- HexAscii.ToAsciis: the `(uint8_t)` cast before `& 0x0FU` in the source is not written out because it keeps the low nibble unchanged.
- The formatters' `char` results are Dafny `char` values. No character encoding is modelled beyond the ASCII codes 0x30..0x39 and 0x61..0x66.

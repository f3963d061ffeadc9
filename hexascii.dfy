/**
 * Hexadecimal ASCII formatters of lwutil/src/lwutil/lwutil.c:
 * `lwutil_u8_to_2asciis`, `lwutil_u16_to_4asciis` and `lwutil_u32_to_8asciis`
 * write N = 2, 4 or 8 lowercase hex digits of a value, most significant
 * nibble first and zero padded, followed by a NUL, into a caller's char array.
 *
 * The three share one loop, modelled once as ToAsciis with the digit count as
 * a parameter.  HexDigits is its reference meaning and ParseHex its inverse.
 */
module HexAscii {
  import opened Common

  /** A lowercase hexadecimal digit, '0'..'9' or 'a'..'f'. */
  predicate IsHexDigit(c: char)
  {
    '0' <= c <= '9' || 'a' <= c <= 'f'
  }

  /** The number a hex digit stands for. */
  function HexValue(c: char): (d: nat)
    requires IsHexDigit(c)
    ensures d < 0x10
  {
    if c <= '9' then c as int - '0' as int else c as int - 'a' as int + 10
  }

  /** `aux <= 9U ? aux + 0x30U : aux + 0x57U`: the digit character of a nibble. */
  function HexChar(d: nat): (c: char)
    requires d < 0x10
    ensures IsHexDigit(c) && HexValue(c) == d
  {
    if d <= 9 then (d + 0x30) as char else (d + 0x57) as char
  }

  /** `(hex >> (4U * k)) & 0x0FU`: nibble k of v, counted from the least significant. */
  function Nibble(v: nat, k: nat): nat
  {
    Shr(v, 4 * k) % 0x10
  }

  /** The n-digit hex text of v: the low n nibbles, most significant first. */
  function HexDigits(v: nat, n: nat): (s: string)
    ensures |s| == n
  {
    if n == 0 then [] else HexDigits(v / 0x10, n - 1) + [HexChar(v % 0x10)]
  }

  predicate IsHexText(s: string)
  {
    forall i :: 0 <= i < |s| ==> IsHexDigit(s[i])
  }

  /** The value of a hex text, most significant digit first. */
  function ParseHex(s: string): nat
    requires IsHexText(s)
  {
    if s == [] then 0 else 0x10 * ParseHex(s[..|s| - 1]) + HexValue(s[|s| - 1])
  }

  // ---------------------------------------------------------------------
  // Properties of the reference definitions
  // ---------------------------------------------------------------------

  /** `(v >> 4) >> 4k` is `v >> 4(k + 1)`. */
  lemma NibbleShift(v: nat, k: nat)
    ensures Nibble(v / 0x10, k) == Nibble(v, k + 1)
  {
    Pow2Table();
    Pow2Add(4, 4 * k);
    DivDiv(v, 0x10, Pow2(4 * k));
  }

  /** Digit i of the n-digit text of v encodes nibble n - 1 - i. */
  lemma {:induction false} HexDigitAt(v: nat, n: nat, i: nat)
    requires i < n
    ensures HexDigits(v, n)[i] == HexChar(Nibble(v, n - 1 - i))
  {
    if i == n - 1 {
      assert Pow2(0) == 1;
    } else {
      HexDigitAt(v / 0x10, n - 1, i);
      NibbleShift(v, n - 2 - i);
    }
  }

  /** Every character of the text is a lowercase hex digit. */
  lemma HexDigitsAreHexText(v: nat, n: nat)
    ensures IsHexText(HexDigits(v, n))
  {
    forall i | 0 <= i < n
      ensures IsHexDigit(HexDigits(v, n)[i])
    {
      HexDigitAt(v, n, i);
    }
  }

  /** Parsing the n digits of v gives v back, for v < 16^n. */
  lemma {:induction false} ParseHexDigits(v: nat, n: nat)
    requires v < Pow2(4 * n)
    ensures IsHexText(HexDigits(v, n))
    ensures ParseHex(HexDigits(v, n)) == v
  {
    HexDigitsAreHexText(v, n);
    if n == 0 {
      assert v == 0;
    } else {
      Pow2Table();
      Pow2Add(4, 4 * (n - 1));
      ParseHexDigits(v / 0x10, n - 1);
      var s := HexDigits(v, n);
      assert s[..n - 1] == HexDigits(v / 0x10, n - 1);
    }
  }

  lemma HexCharOfValue(c: char)
    requires IsHexDigit(c)
    ensures HexChar(HexValue(c)) == c
  {
  }

  /** Formatting the value of a hex text with as many digits gives the text back. */
  lemma {:induction false} HexDigitsOfParse(s: string)
    requires IsHexText(s)
    ensures HexDigits(ParseHex(s), |s|) == s
  {
    if s != [] {
      var t := s[..|s| - 1];
      HexDigitsOfParse(t);
      var v := ParseHex(s);
      assert v / 0x10 == ParseHex(t) && v % 0x10 == HexValue(s[|s| - 1]);
      HexCharOfValue(s[|s| - 1]);
      assert s == t + [s[|s| - 1]];
    }
  }

  /** For each formatter width, its text is hex digits and parses back to the input. */
  lemma FormattersRoundTrip(a: u8, b: u16, c: u32)
    ensures IsHexText(HexDigits(a, 2)) && ParseHex(HexDigits(a, 2)) == a
    ensures IsHexText(HexDigits(b, 4)) && ParseHex(HexDigits(b, 4)) == b
    ensures IsHexText(HexDigits(c, 8)) && ParseHex(HexDigits(c, 8)) == c
  {
    Pow2Table();
    ParseHexDigits(a, 2);
    ParseHexDigits(b, 4);
    ParseHexDigits(c, 8);
  }


  /** `lwutil_u32_to_8asciis(0x12345678U, ...)` in dev/main.c. */
  lemma U32Examples()
    ensures HexDigits(0x1234_5678, 8) == "12345678"
  {
    var s0 := "12345678";
    assert IsHexText(s0);
    assert ParseHex(s0[..1]) == 0x1;
    assert s0[..2][..1] == s0[..1];
    assert ParseHex(s0[..2]) == 0x12;
    assert s0[..3][..2] == s0[..2];
    assert ParseHex(s0[..3]) == 0x123;
    assert s0[..4][..3] == s0[..3];
    assert ParseHex(s0[..4]) == 0x1234;
    assert s0[..5][..4] == s0[..4];
    assert ParseHex(s0[..5]) == 0x12345;
    assert s0[..6][..5] == s0[..5];
    assert ParseHex(s0[..6]) == 0x123456;
    assert s0[..7][..6] == s0[..6];
    assert ParseHex(s0[..7]) == 0x1234567;
    assert s0[..8][..7] == s0[..7];
    assert s0[..8] == s0;
    assert ParseHex(s0) == 0x12345678;
    HexDigitsOfParse(s0);
  }

  /** `lwutil_u32_to_8asciis(0x5678U, ...)` in dev/main.c: zero padded. */
  lemma U32PaddedExample()
    ensures HexDigits(0x5678, 8) == "00005678"
  {
    var s0 := "00005678";
    assert IsHexText(s0);
    assert ParseHex(s0[..1]) == 0x0;
    assert s0[..2][..1] == s0[..1];
    assert ParseHex(s0[..2]) == 0x0;
    assert s0[..3][..2] == s0[..2];
    assert ParseHex(s0[..3]) == 0x0;
    assert s0[..4][..3] == s0[..3];
    assert ParseHex(s0[..4]) == 0x0;
    assert s0[..5][..4] == s0[..4];
    assert ParseHex(s0[..5]) == 0x5;
    assert s0[..6][..5] == s0[..5];
    assert ParseHex(s0[..6]) == 0x56;
    assert s0[..7][..6] == s0[..6];
    assert ParseHex(s0[..7]) == 0x567;
    assert s0[..8][..7] == s0[..7];
    assert s0[..8] == s0;
    assert ParseHex(s0) == 0x5678;
    HexDigitsOfParse(s0);
  }

  /** The `lwutil_u16_to_4asciis` examples in dev/main.c. */
  lemma U16Examples()
    ensures HexDigits(0x1256, 4) == "1256"
    ensures HexDigits(0x156, 4) == "0156"
  {
    var s0 := "1256";
    assert IsHexText(s0);
    assert ParseHex(s0[..1]) == 0x1;
    assert s0[..2][..1] == s0[..1];
    assert ParseHex(s0[..2]) == 0x12;
    assert s0[..3][..2] == s0[..2];
    assert ParseHex(s0[..3]) == 0x125;
    assert s0[..4][..3] == s0[..3];
    assert s0[..4] == s0;
    assert ParseHex(s0) == 0x1256;
    HexDigitsOfParse(s0);
    var s1 := "0156";
    assert IsHexText(s1);
    assert ParseHex(s1[..1]) == 0x0;
    assert s1[..2][..1] == s1[..1];
    assert ParseHex(s1[..2]) == 0x1;
    assert s1[..3][..2] == s1[..2];
    assert ParseHex(s1[..3]) == 0x15;
    assert s1[..4][..3] == s1[..3];
    assert s1[..4] == s1;
    assert ParseHex(s1) == 0x156;
    HexDigitsOfParse(s1);
  }

  /** The `lwutil_u8_to_2asciis` examples in dev/main.c. */
  lemma U8Examples()
    ensures HexDigits(0x16, 2) == "16"
    ensures HexDigits(0x6, 2) == "06"
  {
    var s0 := "16";
    assert IsHexText(s0);
    assert ParseHex(s0[..1]) == 0x1;
    assert s0[..2][..1] == s0[..1];
    assert s0[..2] == s0;
    assert ParseHex(s0) == 0x16;
    HexDigitsOfParse(s0);
    var s1 := "06";
    assert IsHexText(s1);
    assert ParseHex(s1[..1]) == 0x0;
    assert s1[..2][..1] == s1[..1];
    assert s1[..2] == s1;
    assert ParseHex(s1) == 0x6;
    HexDigitsOfParse(s1);
  }

  // ---------------------------------------------------------------------
  // The library functions
  // ---------------------------------------------------------------------

  /** The loop the three formatters share: `idx` runs from n down to 1 and
      writes digit n - idx; then NUL goes to index n.  Nothing past n changes. */
  method ToAsciis(hex: nat, n: nat, ascii: array<char>)
    requires n < ascii.Length
    modifies ascii
    ensures ascii[..n] == HexDigits(hex, n)
    ensures ascii[n] == '\0'
    ensures ascii[n + 1..] == old(ascii[n + 1..])
  {
    var idx: nat := n;
    while idx != 0
      invariant idx <= n
      invariant forall j :: 0 <= j < n - idx ==> ascii[j] == HexChar(Nibble(hex, n - 1 - j))
      invariant ascii[n..] == old(ascii[n..])
    {
      var aux := Nibble(hex, idx - 1);
      aux := if aux <= 9 then aux + 0x30 else aux + 0x57;
      ascii[n - idx] := aux as char;
      idx := idx - 1;
    }
    ascii[n] := '\0';
    forall j | 0 <= j < n
      ensures ascii[j] == HexDigits(hex, n)[j]
    {
      HexDigitAt(hex, n, j);
    }
  }

  /** `lwutil_u8_to_2asciis`: ascii needs at least 3 slots. */
  method U8To2Asciis(hex: u8, ascii: array<char>)
    requires ascii.Length >= 3
    modifies ascii
    ensures ascii[..2] == HexDigits(hex, 2) && ascii[2] == '\0'
    ensures ascii[3..] == old(ascii[3..])
  {
    ToAsciis(hex, 2, ascii);
  }

  /** `lwutil_u16_to_4asciis`: ascii needs at least 5 slots. */
  method U16To4Asciis(hex: u16, ascii: array<char>)
    requires ascii.Length >= 5
    modifies ascii
    ensures ascii[..4] == HexDigits(hex, 4) && ascii[4] == '\0'
    ensures ascii[5..] == old(ascii[5..])
  {
    ToAsciis(hex, 4, ascii);
  }

  /** `lwutil_u32_to_8asciis`: ascii needs at least 9 slots. */
  method U32To8Asciis(hex: u32, ascii: array<char>)
    requires ascii.Length >= 9
    modifies ascii
    ensures ascii[..8] == HexDigits(hex, 8) && ascii[8] == '\0'
    ensures ascii[9..] == old(ascii[9..])
  {
    ToAsciis(hex, 8, ascii);
  }
}

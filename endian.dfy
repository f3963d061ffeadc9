/**
 * Fixed-width integer codec of lwutil.c: store and load `uint16_t` and
 * `uint32_t` values to and from byte arrays in little- and big-endian order.
 *
 * The stores are unchecked in-place writes of the first 2 or 4 bytes of the
 * caller's array; the loads are pure reconstructions from the first 2 or 4
 * bytes.  The reference meaning of both orders is given by LeBytes/LeValue
 * and BeBytes/BeValue, defined independently of each other.
 */
module Endian {
  import opened Common

  /** Little-endian bytes of v: byte i is `(v >> 8i) & 0xFF`. */
  function LeBytes(v: nat, n: nat): (s: seq<u8>)
    ensures |s| == n
  {
    if n == 0 then [] else [v % 0x100] + LeBytes(v / 0x100, n - 1)
  }

  /** Value of a little-endian byte string: the sum of s[i] * 256^i. */
  function LeValue(s: seq<u8>): nat
  {
    if s == [] then 0 else s[0] + 0x100 * LeValue(s[1..])
  }

  /** Big-endian bytes of v: the most significant of the n bytes first. */
  function BeBytes(v: nat, n: nat): (s: seq<u8>)
    ensures |s| == n
  {
    if n == 0 then [] else BeBytes(v / 0x100, n - 1) + [v % 0x100]
  }

  /** Value of a big-endian byte string: the sum of s[i] * 256^(|s|-1-i). */
  function BeValue(s: seq<u8>): nat
  {
    if s == [] then 0 else 0x100 * BeValue(s[..|s| - 1]) + s[|s| - 1]
  }

  function Reverse(s: seq<u8>): (r: seq<u8>)
    ensures |r| == |s|
  {
    seq(|s|, i requires 0 <= i < |s| => s[|s| - 1 - i])
  }

  // ---------------------------------------------------------------------
  // Properties of the reference encodings
  // ---------------------------------------------------------------------

  /** A little-endian string of n bytes holds a value below 2^(8n). */
  lemma {:induction false} LeValueBound(s: seq<u8>)
    ensures LeValue(s) < Pow2(8 * |s|)
  {
    if s != [] {
      LeValueBound(s[1..]);
      Pow2Add(8, 8 * (|s| - 1));
      Pow2Table();
    }
  }

  /** Decoding the n little-endian bytes of v gives v back, for v < 2^(8n). */
  lemma {:induction false} LeRoundTrip(v: nat, n: nat)
    requires v < Pow2(8 * n)
    ensures LeValue(LeBytes(v, n)) == v
  {
    if n == 0 {
      assert v == 0;
    } else {
      Pow2Add(8, 8 * (n - 1));
      Pow2Table();
      assert v / 0x100 < Pow2(8 * (n - 1));
      LeRoundTrip(v / 0x100, n - 1);
      assert LeBytes(v, n)[1..] == LeBytes(v / 0x100, n - 1);
    }
  }

  /** Encoding the value of a little-endian string gives the string back. */
  lemma {:induction false} LeReencode(s: seq<u8>)
    ensures LeBytes(LeValue(s), |s|) == s
  {
    if s != [] {
      LeReencode(s[1..]);
      var v := LeValue(s);
      assert v % 0x100 == s[0] && v / 0x100 == LeValue(s[1..]);
    }
  }

  lemma ReverseCons(a: u8, t: seq<u8>)
    ensures Reverse([a] + t) == Reverse(t) + [a]
  {
  }

  lemma ReverseSnoc(t: seq<u8>, a: u8)
    ensures Reverse(t + [a]) == [a] + Reverse(t)
  {
  }

  lemma ReverseReverse(s: seq<u8>)
    ensures Reverse(Reverse(s)) == s
  {
  }

  /** The big-endian bytes of a value are its little-endian bytes reversed. */
  lemma {:induction false} BeIsReversedLe(v: nat, n: nat)
    ensures BeBytes(v, n) == Reverse(LeBytes(v, n))
  {
    if n > 0 {
      BeIsReversedLe(v / 0x100, n - 1);
      ReverseCons(v % 0x100, LeBytes(v / 0x100, n - 1));
    }
  }

  /** A big-endian string has the value of its reverse read little-endian. */
  lemma {:induction false} BeValueIsLeOfReversed(s: seq<u8>)
    ensures BeValue(s) == LeValue(Reverse(s))
  {
    if s != [] {
      var t := s[..|s| - 1];
      BeValueIsLeOfReversed(t);
      assert s == t + [s[|s| - 1]];
      ReverseSnoc(t, s[|s| - 1]);
      assert Reverse(s)[1..] == Reverse(t);
    }
  }

  /** Decoding the n big-endian bytes of v gives v back, for v < 2^(8n). */
  lemma BeRoundTrip(v: nat, n: nat)
    requires v < Pow2(8 * n)
    ensures BeValue(BeBytes(v, n)) == v
  {
    BeIsReversedLe(v, n);
    BeValueIsLeOfReversed(BeBytes(v, n));
    ReverseReverse(LeBytes(v, n));
    LeRoundTrip(v, n);
  }

  /** Encoding the value of a big-endian string gives the string back. */
  lemma BeReencode(s: seq<u8>)
    ensures BeBytes(BeValue(s), |s|) == s
  {
    BeValueIsLeOfReversed(s);
    LeReencode(Reverse(s));
    BeIsReversedLe(BeValue(s), |s|);
    ReverseReverse(s);
  }

  // Unfoldings of the reference encodings at the two widths.

  lemma LeValue2(q: seq<u8>)
    requires |q| == 2
    ensures LeValue(q) == q[0] + 0x100 * q[1] as int
  {
    assert q[1..][1..] == [];
    assert LeValue(q[1..]) == q[1] + 0x100 * LeValue(q[1..][1..]);
  }

  lemma LeValue4(q: seq<u8>)
    requires |q| == 4
    ensures LeValue(q) == q[0] + 0x100 * q[1] as int + 0x1_0000 * q[2] as int + 0x100_0000 * q[3] as int
  {
    LeValue2(q[2..]);
    assert q[1..][1..] == q[2..];
  }

  lemma BeValue2(q: seq<u8>)
    requires |q| == 2
    ensures BeValue(q) == 0x100 * q[0] as int + q[1]
  {
    assert q[..1][..0] == [];
    assert BeValue(q[..1]) == 0x100 * BeValue(q[..1][..0]) + q[0];
  }

  lemma BeValue4(q: seq<u8>)
    requires |q| == 4
    ensures BeValue(q) == 0x100_0000 * q[0] as int + 0x1_0000 * q[1] as int + 0x100 * q[2] as int + q[3]
  {
    BeValue2(q[..2]);
    assert q[..3][..2] == q[..2];
  }

  lemma LeBytes4(v: nat)
    ensures LeBytes(v, 4) == [v % 0x100, (v / 0x100) % 0x100, (v / 0x1_0000) % 0x100, (v / 0x100_0000) % 0x100]
  {
    assert LeBytes(v, 4) == [v % 0x100] + LeBytes(v / 0x100, 3);
    assert LeBytes(v / 0x100, 3) == [(v / 0x100) % 0x100] + LeBytes(v / 0x100 / 0x100, 2);
    assert LeBytes(v / 0x100 / 0x100, 2) == [(v / 0x100 / 0x100) % 0x100] + LeBytes(v / 0x100 / 0x100 / 0x100, 1);
    DivDiv(v, 0x100, 0x100);
    DivDiv(v, 0x1_0000, 0x100);
  }

  lemma BeBytes4(v: nat)
    ensures BeBytes(v, 4) == [(v / 0x100_0000) % 0x100, (v / 0x1_0000) % 0x100, (v / 0x100) % 0x100, v % 0x100]
  {
    assert BeBytes(v, 4) == BeBytes(v / 0x100, 3) + [v % 0x100];
    assert BeBytes(v / 0x100, 3) == BeBytes(v / 0x100 / 0x100, 2) + [(v / 0x100) % 0x100];
    assert BeBytes(v / 0x100 / 0x100, 2) == BeBytes(v / 0x100 / 0x100 / 0x100, 1) + [(v / 0x100 / 0x100) % 0x100];
    DivDiv(v, 0x100, 0x100);
    DivDiv(v, 0x1_0000, 0x100);
  }

  // ---------------------------------------------------------------------
  // The library functions
  // ---------------------------------------------------------------------

  /** `lwutil_st_u16_le`: writes p[0], p[1]; nothing else changes. */
  method StU16Le(val: u16, p: array<u8>)
    requires p.Length >= 2
    modifies p
    ensures p[..2] == LeBytes(val, 2)
    ensures p[2..] == old(p[2..])
  {
    p[0] := (val / 0x1) % 0x100;
    p[1] := (val / 0x100) % 0x100;
    assert p[..2] == [p[0], p[1]];
  }

  /** `lwutil_st_u32_le`: writes p[0..3]; nothing else changes. */
  method StU32Le(val: u32, p: array<u8>)
    requires p.Length >= 4
    modifies p
    ensures p[..4] == LeBytes(val, 4)
    ensures p[4..] == old(p[4..])
  {
    p[0] := (val / 0x1) % 0x100;
    p[1] := (val / 0x100) % 0x100;
    p[2] := (val / 0x1_0000) % 0x100;
    p[3] := (val / 0x100_0000) % 0x100;
    assert p[..4] == [p[0], p[1], p[2], p[3]];
    LeBytes4(val);
  }

  /** `lwutil_st_u16_be`: writes p[0], p[1], high byte first. */
  method StU16Be(val: u16, p: array<u8>)
    requires p.Length >= 2
    modifies p
    ensures p[..2] == BeBytes(val, 2)
    ensures p[2..] == old(p[2..])
  {
    p[0] := (val / 0x100) % 0x100;
    p[1] := (val / 0x1) % 0x100;
    assert p[..2] == [p[0], p[1]];
  }

  /** `lwutil_st_u32_be`: writes p[0..3], most significant byte first. */
  method StU32Be(val: u32, p: array<u8>)
    requires p.Length >= 4
    modifies p
    ensures p[..4] == BeBytes(val, 4)
    ensures p[4..] == old(p[4..])
  {
    p[0] := (val / 0x100_0000) % 0x100;
    p[1] := (val / 0x1_0000) % 0x100;
    p[2] := (val / 0x100) % 0x100;
    p[3] := (val / 0x1) % 0x100;
    assert p[..4] == [p[0], p[1], p[2], p[3]];
    BeBytes4(val);
  }

  /** `lwutil_ld_u16_le`: `p[1] << 8 | p[0]`. */
  function LdU16Le(p: seq<u8>): (r: u16)
    requires |p| >= 2
    ensures r == LeValue(p[..2])
  {
    LeValue2(p[..2]);
    p[1] as int * 0x100 + p[0]
  }

  /** `lwutil_ld_u32_le`: `p[3] << 24 | p[2] << 16 | p[1] << 8 | p[0]`. */
  function LdU32Le(p: seq<u8>): (r: u32)
    requires |p| >= 4
    ensures r == LeValue(p[..4])
  {
    LeValue4(p[..4]);
    p[3] as int * 0x100_0000 + p[2] as int * 0x1_0000 + p[1] as int * 0x100 + p[0]
  }

  /** `lwutil_ld_u16_be`: `p[0] << 8 | p[1]`. */
  function LdU16Be(p: seq<u8>): (r: u16)
    requires |p| >= 2
    ensures r == BeValue(p[..2])
  {
    BeValue2(p[..2]);
    p[0] as int * 0x100 + p[1]
  }

  /** `lwutil_ld_u32_be`: `p[0] << 24 | p[1] << 16 | p[2] << 8 | p[3]`. */
  function LdU32Be(p: seq<u8>): (r: u32)
    requires |p| >= 4
    ensures r == BeValue(p[..4])
  {
    BeValue4(p[..4]);
    p[0] as int * 0x100_0000 + p[1] as int * 0x1_0000 + p[2] as int * 0x100 + p[3]
  }

  // ---------------------------------------------------------------------
  // Round trips of the library functions
  // ---------------------------------------------------------------------

  /** Loading what a 16-bit store wrote gives the stored value, in both orders;
      storing a loaded value rewrites the same two bytes. */
  lemma RoundTrip16(v: u16, p: seq<u8>)
    requires |p| >= 2
    ensures LdU16Le(LeBytes(v, 2)) == v && LdU16Be(BeBytes(v, 2)) == v
    ensures LeBytes(LdU16Le(p), 2) == p[..2] && BeBytes(LdU16Be(p), 2) == p[..2]
  {
    Pow2Table();
    var le, be := LeBytes(v, 2), BeBytes(v, 2);
    assert le[..2] == le && be[..2] == be;
    LeRoundTrip(v, 2);
    BeRoundTrip(v, 2);
    LeReencode(p[..2]);
    BeReencode(p[..2]);
  }

  /** Loading what a 32-bit store wrote gives the stored value, in both orders;
      storing a loaded value rewrites the same four bytes. */
  lemma RoundTrip32(v: u32, p: seq<u8>)
    requires |p| >= 4
    ensures LdU32Le(LeBytes(v, 4)) == v && LdU32Be(BeBytes(v, 4)) == v
    ensures LeBytes(LdU32Le(p), 4) == p[..4] && BeBytes(LdU32Be(p), 4) == p[..4]
  {
    Pow2Table();
    var le, be := LeBytes(v, 4), BeBytes(v, 4);
    assert le[..4] == le && be[..4] == be;
    LeRoundTrip(v, 4);
    BeRoundTrip(v, 4);
    LeReencode(p[..4]);
    BeReencode(p[..4]);
  }

  /** The big-endian stores write the byte-reverse of the little-endian ones,
      and a big-endian load reads the reversed bytes little-endian. */
  lemma ByteOrders(v: u32, p: seq<u8>)
    requires |p| >= 4
    ensures BeBytes(v, 2) == Reverse(LeBytes(v, 2))
    ensures BeBytes(v, 4) == Reverse(LeBytes(v, 4))
    ensures LdU16Be(p) == LdU16Le(Reverse(p[..2]))
    ensures LdU32Be(p) == LdU32Le(Reverse(p[..4]))
  {
    BeIsReversedLe(v, 2);
    BeIsReversedLe(v, 4);
    BeValueIsLeOfReversed(p[..2]);
    BeValueIsLeOfReversed(p[..4]);
    assert Reverse(p[..2])[..2] == Reverse(p[..2]);
    assert Reverse(p[..4])[..4] == Reverse(p[..4]);
  }

  /** The store and load examples in dev/main.c. */
  lemma EndianExamples()
    ensures LeBytes(0x1234, 2) == [0x34, 0x12] && BeBytes(0x1234, 2) == [0x12, 0x34]
    ensures LeBytes(0x1234_5678, 4) == [0x78, 0x56, 0x34, 0x12]
    ensures BeBytes(0x1234_5678, 4) == [0x12, 0x34, 0x56, 0x78]
    ensures LdU16Le([0x12, 0x34, 0x56, 0x78]) == 0x3412 && LdU16Be([0x12, 0x34, 0x56, 0x78]) == 0x1234
    ensures LdU32Le([0x12, 0x34, 0x56, 0x78]) == 0x7856_3412 && LdU32Be([0x12, 0x34, 0x56, 0x78]) == 0x1234_5678
  {
    LeBytes4(0x1234_5678);
    BeBytes4(0x1234_5678);
  }
}

/**
 * Variable-length integer codec of lwutil/src/lwutil/lwutil.c: unsigned
 * LEB128 (the "Variable Length Data" encoding of the DWARF Debugging
 * Information Format, section 7.6; also the base-128 varint of Protocol
 * Buffers).  Each byte carries seven data bits, least significant group
 * first; bit 7 (0x80) set means another byte follows.
 *
 * The reference definitions are Groups (how many bytes a value needs),
 * Encode (the canonical encoding), Decode (the value of a byte string) and
 * Terminator (where a byte string's first closing byte is).  The two library
 * functions are methods proved against them.
 */
module Varint {
  import opened Common

  /** `b & 0x7FU`: the seven data bits of an encoded byte. */
  function Data(b: u8): nat
  {
    b % 0x80
  }

  /** `(b & 0x80U) > 0`: the continuation flag of an encoded byte. */
  predicate More(b: u8)
  {
    b >= 0x80
  }

  /** `(uint32_t)x << s`: a left shift truncated to 32 bits. */
  function Shl32(x: nat, s: nat): u32
  {
    (x * Pow2(s)) % 0x1_0000_0000
  }

  // ---------------------------------------------------------------------
  // Reference definitions
  // ---------------------------------------------------------------------

  /** Number of 7-bit groups of v: the length of its encoding. */
  function Groups(v: nat): nat
  {
    if v < 0x80 then 1 else 1 + Groups(v / 0x80)
  }

  /** Canonical encoding: low group first, continuation flag on all but the last byte. */
  function Encode(v: nat): seq<u8>
  {
    if v < 0x80 then [v] else [v % 0x80 + 0x80] + Encode(v / 0x80)
  }

  /** Value of a byte string read as 7-bit groups, least significant first, untruncated. */
  function Decode(s: seq<u8>): nat
  {
    if s == [] then 0 else Data(s[0]) + 0x80 * Decode(s[1..])
  }

  /** Index of the first byte whose continuation flag is clear, if any. */
  function Terminator(s: seq<u8>): (r: Option<nat>)
    ensures r.Some? ==> r.value < |s| && !More(s[r.value])
    ensures r.Some? ==> forall j :: 0 <= j < r.value ==> More(s[j])
    ensures r.None? <==> forall j :: 0 <= j < |s| ==> More(s[j])
  {
    if s == [] then None
    else if !More(s[0]) then Some(0)
    else match Terminator(s[1..])
      case None => None
      case Some(k) => Some(k + 1)
  }

  /** The load shifts by `cnt * 7` for every byte it reads; the shift stays below
      32 exactly when it reads at most five bytes.  That happens when a closing
      byte is among the first five, or when the input is at most five bytes long. */
  predicate WithinShiftRange(s: seq<u8>)
  {
    match Terminator(s)
    case Some(k) => k < 5
    case None => |s| <= 5
  }

  // ---------------------------------------------------------------------
  // Properties of the reference definitions
  // ---------------------------------------------------------------------

  /** Groups(v) is the least n >= 1 with v < 2^(7n). */
  lemma {:induction false} GroupsBounds(v: nat)
    ensures Groups(v) >= 1
    ensures v < Pow2(7 * Groups(v))
    ensures Groups(v) > 1 ==> Pow2(7 * (Groups(v) - 1)) <= v
  {
    Pow2Table();
    if v >= 0x80 {
      var m := Groups(v / 0x80);
      GroupsBounds(v / 0x80);
      Pow2Add(7 * m, 7);
      if m > 1 {
        Pow2Add(7 * (m - 1), 7);
      }
    }
  }

  /** The canonical lengths of 32-bit values: one to five bytes, by range. */
  lemma GroupsOfU32(v: u32)
    ensures 1 <= Groups(v) <= 5
    ensures Groups(v) == 1 <==> v < 0x80
    ensures Groups(v) == 2 <==> 0x80 <= v < 0x4000
    ensures Groups(v) == 3 <==> 0x4000 <= v < 0x20_0000
    ensures Groups(v) == 4 <==> 0x20_0000 <= v < 0x1000_0000
    ensures Groups(v) == 5 <==> 0x1000_0000 <= v
  {
    GroupsBounds(v);
    Pow2Table();
    var n := Groups(v);
    Pow2Le(32, 7 * (n - 1));
    Pow2Le(7, 7 * (n - 1));
    Pow2Le(14, 7 * (n - 1));
    Pow2Le(21, 7 * (n - 1));
    Pow2Le(7 * n, 7);
    Pow2Le(7 * n, 14);
    Pow2Le(7 * n, 21);
    Pow2Le(7 * n, 28);
  }

  /** The encoding has Groups(v) bytes; every byte but the last carries the
      continuation flag, and the last does not. */
  lemma {:induction false} EncodeShape(v: nat)
    ensures |Encode(v)| == Groups(v)
    ensures forall i :: 0 <= i < Groups(v) - 1 ==> More(Encode(v)[i])
    ensures !More(Encode(v)[Groups(v) - 1])
  {
    if v >= 0x80 {
      EncodeShape(v / 0x80);
    }
  }

  /** `v >> 7i` is `(v >> 7) >> 7(i - 1)`, and also `(v >> 7(i - 1)) >> 7`. */
  lemma ShiftStep(v: nat, i: nat)
    requires i > 0
    ensures Shr(v, 7 * i) == Shr(v / 0x80, 7 * (i - 1))
    ensures Shr(v, 7 * i) == Shr(v, 7 * (i - 1)) / 0x80
  {
    Pow2Add(7, 7 * (i - 1));
    Pow2Table();
    DivDiv(v, 0x80, Pow2(7 * (i - 1)));
    DivDiv(v, Pow2(7 * (i - 1)), 0x80);
  }

  /** Dropping the first i bytes of the encoding of v gives the encoding of `v >> 7i`. */
  lemma {:induction false} EncodeDrop(v: nat, i: nat)
    requires i < Groups(v)
    ensures |Encode(v)| == Groups(v)
    ensures Encode(v)[i..] == Encode(Shr(v, 7 * i))
    ensures Groups(Shr(v, 7 * i)) == Groups(v) - i
  {
    EncodeShape(v);
    if i == 0 {
      assert Pow2(0) == 1;
    } else {
      assert v >= 0x80;
      var w := v / 0x80;
      assert i - 1 < Groups(w);
      EncodeDrop(w, i - 1);
      ShiftStep(v, i);
      assert Shr(v, 7 * i) == Shr(w, 7 * (i - 1));
      SliceCons(v % 0x80 + 0x80, Encode(w), i);
    }
  }

  /** Byte i of the encoding is `((v >> 7i) & 0x7F) | (i < L - 1 ? 0x80 : 0)`. */
  lemma EncodeAt(v: nat, i: nat)
    requires i < Groups(v)
    ensures |Encode(v)| == Groups(v)
    ensures Encode(v)[i] == (Shr(v, 7 * i)) % 0x80 + (if i < Groups(v) - 1 then 0x80 else 0)
  {
    EncodeDrop(v, i);
    var w := Shr(v, 7 * i);
    assert Encode(v)[i] == Encode(w)[0];
  }

  /** `v >> 7i` is zero once all groups are consumed and nonzero before. */
  lemma ShiftedValue(v: nat, i: nat)
    ensures i >= Groups(v) ==> Shr(v, 7 * i) == 0
    ensures 0 < i < Groups(v) ==> Shr(v, 7 * i) > 0
  {
    GroupsBounds(v);
    var n := Groups(v);
    if i >= n {
      Pow2Monotone(7 * n, 7 * i);
      DivUnique(v, Pow2(7 * i), 0, v);
    } else if i > 0 {
      Pow2Monotone(7 * i, 7 * (n - 1));
    }
  }

  /** Decoding the canonical encoding gives the value back. */
  lemma {:induction false} DecodeEncode(v: nat)
    ensures Decode(Encode(v)) == v
  {
    if v >= 0x80 {
      DecodeEncode(v / 0x80);
      assert Encode(v)[1..] == Encode(v / 0x80);
    }
  }

  /** n bytes decode to a value below 2^(7n). */
  lemma {:induction false} DecodeBound(s: seq<u8>)
    ensures Decode(s) < Pow2(7 * |s|)
  {
    if s != [] {
      DecodeBound(s[1..]);
      Pow2Table();
      Pow2Add(7, 7 * (|s| - 1));
    }
  }

  /** Reading one more byte adds its data bits at position 7n. */
  lemma {:induction false} DecodeSnoc(s: seq<u8>, n: nat)
    requires n < |s|
    ensures Decode(s[..n + 1]) == Decode(s[..n]) + Data(s[n]) * Pow2(7 * n)
  {
    if n > 0 {
      var t := s[1..];
      DecodeSnoc(t, n - 1);
      assert s[..n + 1][1..] == t[..n] && s[..n][1..] == t[..n - 1] && t[n - 1] == s[n];
      var k := 7 * (n - 1);
      assert 7 * n == 7 + k;
      Pow2Table();
      Pow2Add(7, k);
      MulSwap(Data(s[n]), 0x80, Pow2(k));
    }
  }

  /** The arithmetic of one load step: a < 2^(7c) holds the bits read so far and
      d the data bits of the next byte. */
  lemma OrStep(a: nat, d: nat, c: nat)
    requires c < 5 && d < 0x80 && a < Pow2(7 * c)
    ensures Or(a % 0x1_0000_0000, Shl32(d, c * 7)) == (a + d * Pow2(7 * c)) % 0x1_0000_0000
  {
    assert c * 7 == 7 * c;
    if c < 4 {
      OrStepLow(a, d, 7 * c);
    } else {
      OrStepTop(a, d);
    }
  }

  /** Below the fifth byte nothing is truncated. */
  lemma OrStepLow(a: nat, d: nat, k: nat)
    requires k <= 21 && d < 0x80 && a < Pow2(k)
    ensures Or(a % 0x1_0000_0000, Shl32(d, k)) == (a + d * Pow2(k)) % 0x1_0000_0000
  {
    var p := Pow2(k);
    Pow2Monotone(k, 21);
    Pow2Table();
    MulLe(d, 0x7F, p);
    var m := d * p;
    assert m + a < 0x1000_0000;
    ModSmall(a, 0x1_0000_0000);
    ModSmall(m, 0x1_0000_0000);
    ModSmall(a + m, 0x1_0000_0000);
    OrDisjoint(a, d, k);
  }

  /** The fifth byte: only its low four data bits fit in 32 bits. */
  lemma OrStepTop(a: nat, d: nat)
    requires d < 0x80 && a < Pow2(28)
    ensures Or(a % 0x1_0000_0000, Shl32(d, 28)) == (a + d * Pow2(28)) % 0x1_0000_0000
  {
    Pow2Table();
    var t, q := d % 0x10, d / 0x10;
    assert d * 0x1000_0000 == 0x1_0000_0000 * q + t * 0x1000_0000;
    DivUnique(d * 0x1000_0000, 0x1_0000_0000, q, t * 0x1000_0000);
    ModSmall(a, 0x1_0000_0000);
    OrDisjoint(a, t, 28);
    DivUnique(a + d * 0x1000_0000, 0x1_0000_0000, q, a + t * 0x1000_0000);
  }

  /** One step of the load loop: OR-ing in the next byte's data bits, shifted by
      `7c` and truncated to 32 bits, extends the decoded prefix by one byte. */
  lemma AccumulateStep(s: seq<u8>, c: nat)
    requires c < 5 && c < |s|
    ensures Or(Decode(s[..c]) % 0x1_0000_0000, Shl32(Data(s[c]), c * 7))
         == Decode(s[..c + 1]) % 0x1_0000_0000
  {
    DecodeBound(s[..c]);
    DecodeSnoc(s, c);
    OrStep(Decode(s[..c]), Data(s[c]), c);
  }

  /** One step of the store loop: with v = `val >> 7c`, the byte written is byte c
      of the encoding, `v >> 7` is `val >> 7(c + 1)`, and it is nonzero exactly
      when more groups follow. */
  lemma StoreStep(val: nat, c: nat)
    requires c < Groups(val)
    ensures |Encode(val)| == Groups(val)
    ensures var v := Shr(val, 7 * c);
            && Or(v % 0x80, if v > 0x7F then 0x80 else 0x00) == Encode(val)[c]
            && v / 0x80 == Shr(val, 7 * (c + 1))
            && (v / 0x80 > 0 <==> c + 1 < Groups(val))
  {
    EncodeAt(val, c);
    EncodeDrop(val, c);
    var v := Shr(val, 7 * c);
    Pow2Table();
    OrDisjoint(v % 0x80, if v > 0x7F then 1 else 0, 7);
    ShiftStep(val, c + 1);
    ShiftedValue(val, c + 1);
  }

  /** A buffer that starts with the encoding of v: its first closing byte is the
      last byte of the encoding, the load stays within its shift range, and the
      decoded prefix is v. */
  lemma VarintRoundTrip(v: u32, s: seq<u8>)
    requires Groups(v) <= |s| && s[..Groups(v)] == Encode(v)
    ensures Terminator(s) == Some(Groups(v) - 1)
    ensures WithinShiftRange(s)
    ensures Decode(s[..Groups(v)]) % 0x1_0000_0000 == v
  {
    var n := Groups(v);
    EncodeShape(v);
    GroupsOfU32(v);
    DecodeEncode(v);
    assert forall j :: 0 <= j < n - 1 ==> More(s[j]) by {
      forall j | 0 <= j < n - 1 ensures More(s[j]) {
        assert s[j] == s[..n][j];
      }
    }
    assert s[n - 1] == s[..n][n - 1];
  }

  /** Four full bytes followed by x decode to 28 one-bits below the data bits of x. */
  lemma DecodeAfterFourFull(x: u8)
    ensures Decode([0xFF, 0xFF, 0xFF, 0xFF, x]) == 0x0FFF_FFFF + Data(x) * 0x1000_0000
  {
    var s1: seq<u8> := [x];
    var s2: seq<u8> := [0xFF] + s1;
    var s3: seq<u8> := [0xFF] + s2;
    var s4: seq<u8> := [0xFF] + s3;
    var s5: seq<u8> := [0xFF] + s4;
    assert s1[1..] == [] && s2[1..] == s1 && s3[1..] == s2 && s4[1..] == s3 && s5[1..] == s4;
    assert Decode(s1) == Data(x);
    assert Decode(s2) == 0x7F + 0x80 * Decode(s1);
    assert Decode(s3) == 0x7F + 0x80 * Decode(s2);
    assert Decode(s4) == 0x7F + 0x80 * Decode(s3);
    assert Decode(s5) == 0x7F + 0x80 * Decode(s4);
    assert s5 == [0xFF, 0xFF, 0xFF, 0xFF, x];
  }

  /** The load accepts encodings that are not canonical (a padding group of
      zero bits), and drops data bits above bit 31 in a fifth byte. */
  lemma LoadIsNotInjective()
    ensures Terminator([0x80, 0x00]) == Some(1) && Decode([0x80, 0x00]) == 0 == Decode([0x00])
    ensures Decode([0xFF, 0xFF, 0xFF, 0xFF, 0x7F]) % 0x1_0000_0000 == 0xFFFF_FFFF
    ensures Decode([0xFF, 0xFF, 0xFF, 0xFF, 0x0F]) % 0x1_0000_0000 == 0xFFFF_FFFF
  {
    var a: seq<u8> := [0x80, 0x00];
    assert a[1..] == [0x00];
    DecodeAfterFourFull(0x7F);
    DecodeAfterFourFull(0x0F);
  }

  /** The varint examples in dev/main.c: 150 and 86942 and their encodings,
      a load of 86942 cut to two bytes, and a store of it into two bytes. */
  lemma VarintExamples()
    ensures Groups(150) == 2 && Encode(150) == [0x96, 0x01]
    ensures Groups(86942) == 3 && Encode(86942) == [0x9E, 0xA7, 0x05]
    ensures Terminator([0x96, 0x01]) == Some(1) && Decode([0x96, 0x01]) == 150
    ensures Terminator([0x9E, 0xA7, 0x05]) == Some(2) && Decode([0x9E, 0xA7, 0x05]) == 86942
    ensures Terminator([0x9E, 0xA7]) == None
  {
    var a: seq<u8> := [0x96, 0x01];
    var b: seq<u8> := [0x9E, 0xA7, 0x05];
    assert a[1..] == [0x01] && a[1..][1..] == [];
    assert b[1..] == [0xA7, 0x05] && b[1..][1..] == [0x05] && b[1..][1..][1..] == [];
    assert b[..2][1..] == [0xA7] && b[..2][1..][1..] == [];
  }

  // ---------------------------------------------------------------------
  // The library functions
  // ---------------------------------------------------------------------

  /**
   * `lwutil_st_u32_varint`: writes the encoding of val into ptr[0..ptrLen-1].
   * Returns 0 without writing when the buffer is absent or ptrLen is 0.
   * Otherwise it writes min(ptrLen, L) bytes of the encoding (L = Groups(val))
   * and returns L, or 0 when ptrLen < L; bytes past those written keep their value.
   */
  method StU32Varint(val: u32, ptr: array?<u8>, ptrLen: nat) returns (cnt: u8)
    requires ptr != null ==> ptrLen <= ptr.Length
    modifies ptr
    ensures ptr == null || ptrLen == 0 ==> cnt == 0
    ensures ptr != null && ptrLen == 0 ==> ptr[..] == old(ptr[..])
    ensures ptr != null && ptrLen > 0 ==>
              var w := if Groups(val) <= ptrLen then Groups(val) else ptrLen;
              && |Encode(val)| == Groups(val)
              && cnt as int == (if Groups(val) <= ptrLen then Groups(val) else 0)
              && ptr[..w] == Encode(val)[..w]
              && ptr[w..] == old(ptr[w..])
  {
    if ptr == null || ptrLen == 0 {
      return 0;
    }
    GroupsOfU32(val);
    EncodeShape(val);
    ghost var n := Groups(val);
    var v: nat := val;
    var len := ptrLen;
    var c: nat := 0;
    assert Pow2(0) == 1;
    while true
      invariant c < n && c < ptrLen && len == ptrLen - c
      invariant v == Shr(val, 7 * c)
      invariant ptr[..c] == Encode(val)[..c]
      invariant ptr[c..] == old(ptr[c..])
      decreases len
    {
      StoreStep(val, c);
      ptr[c] := Or(v % 0x80, if v > 0x7F then 0x80 else 0x00);
      assert ptr[..c + 1] == Encode(val)[..c + 1] by {
        assert ptr[..c + 1] == ptr[..c] + [ptr[c]];
        assert Encode(val)[..c + 1] == Encode(val)[..c] + [Encode(val)[c]];
      }
      v := v / 0x80;
      c := c + 1;
      len := len - 1;
      if !(len > 0 && v > 0) {
        break;
      }
    }
    if v > 0 {
      c := 0;
    }
    cnt := c;
  }

  /**
   * `lwutil_ld_u32_varint`: valOut is the content of `*val_out` before the call
   * (None when val_out is NULL) and valOut' its content after.  Returns 0 and
   * leaves `*val_out` untouched when the buffer or val_out is absent or ptrLen
   * is 0.  Otherwise it reads bytes up to and including the first closing byte,
   * never past ptrLen: when there is one at index k it stores the decoded value
   * truncated to 32 bits and returns k + 1; when all ptrLen bytes carry the
   * continuation flag it stores 0 and returns 0.
   */
  method LdU32Varint(ptr: array?<u8>, ptrLen: nat, valOut: Option<u32>) returns (cnt: u8, valOut': Option<u32>)
    requires ptr != null ==> ptrLen <= ptr.Length
    requires ptr != null && valOut.Some? ==> WithinShiftRange(ptr[..ptrLen])
    ensures ptr == null || ptrLen == 0 || valOut.None? ==> cnt == 0 && valOut' == valOut
    ensures ptr != null && ptrLen > 0 && valOut.Some? ==>
              match Terminator(ptr[..ptrLen])
              case Some(k) => cnt as int == k + 1 && valOut' == Some(Decode(ptr[..k + 1]) % 0x1_0000_0000)
              case None => cnt == 0 && valOut' == Some(0)
  {
    if ptr == null || ptrLen == 0 || valOut.None? {
      return 0, valOut;
    }
    ghost var s := ptr[..ptrLen];
    var c: nat := 0;
    var val: u32 := 0;
    var len := ptrLen;
    var byt: u8 := 0;
    while true
      invariant c < ptrLen && c < 5 && len == ptrLen - c
      invariant forall j :: 0 <= j < c ==> More(s[j])
      invariant val == Decode(s[..c]) % 0x1_0000_0000
      decreases len
    {
      byt := ptr[c];
      AccumulateStep(s, c);
      val := Or(val, Shl32(Data(byt), c * 7));
      c := c + 1;
      len := len - 1;
      if !(len > 0 && More(byt)) {
        break;
      }
    }
    assert s[..c] == ptr[..c];
    if More(byt) {
      val := 0;
      c := 0;
    } else {
      assert Terminator(s) == Some(c - 1);
    }
    return c, Some(val);
  }

  /** With val_out NULL the load returns 0 before reading, whatever the buffer
      holds: here seven bytes that all carry the continuation flag. */
  method LoadWithoutValOut() returns (cnt: u8, valOut': Option<u32>)
    ensures cnt == 0 && valOut' == None
  {
    var buf := new u8[7](_ => 0x80);
    cnt, valOut' := LdU32Varint(buf, 7, None);
  }

  /** Storing val and loading the stored bytes back, with any length that covers
      the encoding, returns the stored count and reproduces val. */
  method StoreThenLoad(val: u32, buf: array<u8>, storeLen: nat, loadLen: nat)
    returns (stored: u8, loaded: u8, got: Option<u32>)
    requires storeLen <= buf.Length && loadLen <= buf.Length
    modifies buf
    ensures stored as int == (if Groups(val) <= storeLen then Groups(val) else 0)
    ensures stored > 0 && stored <= loadLen ==> loaded == stored && got == Some(val)
  {
    stored := StU32Varint(val, buf, storeLen);
    loaded, got := 0, None;
    if stored > 0 && stored <= loadLen {
      ghost var n := Groups(val);
      assert buf[..loadLen][..n] == buf[..n];
      VarintRoundTrip(val, buf[..loadLen]);
      assert buf[..loadLen][..n] == buf[..n];
      loaded, got := LdU32Varint(buf, loadLen, Some(0));
    }
  }
}

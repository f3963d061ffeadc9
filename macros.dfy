/**
 * The value macros of lwutil/src/include/lwutil/lwutil.h.
 *
 * The bit-mask macros are modelled on 32-bit unsigned values (`bv32`), the
 * width the library's own callers use; MAX, MIN and ABS on mathematical
 * integers, with the fixed-width caveat of ABS stated as a lemma.  Every
 * macro takes its operands by value, so each is a pure function.
 */
module Macros {
  import Common

  /** Bit i of x, counted from the least significant. */
  predicate Bit(x: bv32, i: bv32)
    requires i < 32
  {
    (x >> i) & 1 == 1
  }

  // ---------------------------------------------------------------------
  // Bit-level facts the macro contracts are proved from
  // ---------------------------------------------------------------------

  lemma BitAnd(a: bv32, b: bv32, i: bv32)
    requires i < 32
    ensures Bit(a & b, i) == (Bit(a, i) && Bit(b, i))
  {
  }

  lemma BitOr(a: bv32, b: bv32, i: bv32)
    requires i < 32
    ensures Bit(a | b, i) == (Bit(a, i) || Bit(b, i))
  {
  }

  lemma BitXor(a: bv32, b: bv32, i: bv32)
    requires i < 32
    ensures Bit(a ^ b, i) == (Bit(a, i) != Bit(b, i))
  {
  }

  lemma BitAndNot(a: bv32, b: bv32, i: bv32)
    requires i < 32
    ensures Bit(a & !b, i) == (Bit(a, i) && !Bit(b, i))
  {
  }

  /** A value with no bit set is zero. */
  lemma NoBitsIsZero(x: bv32)
    ensures (forall i: bv32 | i < 32 :: !Bit(x, i)) ==> x == 0
  {
    if forall i: bv32 | i < 32 :: !Bit(x, i) {
      assert !Bit(x, 0) && !Bit(x, 1) && !Bit(x, 2) && !Bit(x, 3);
      assert !Bit(x, 4) && !Bit(x, 5) && !Bit(x, 6) && !Bit(x, 7);
      assert !Bit(x, 8) && !Bit(x, 9) && !Bit(x, 10) && !Bit(x, 11);
      assert !Bit(x, 12) && !Bit(x, 13) && !Bit(x, 14) && !Bit(x, 15);
      assert !Bit(x, 16) && !Bit(x, 17) && !Bit(x, 18) && !Bit(x, 19);
      assert !Bit(x, 20) && !Bit(x, 21) && !Bit(x, 22) && !Bit(x, 23);
      assert !Bit(x, 24) && !Bit(x, 25) && !Bit(x, 26) && !Bit(x, 27);
      assert !Bit(x, 28) && !Bit(x, 29) && !Bit(x, 30) && !Bit(x, 31);
    }
  }

  /** Two values that agree on every bit are equal. */
  lemma BitsEqual(a: bv32, b: bv32)
    requires forall i: bv32 | i < 32 :: Bit(a, i) == Bit(b, i)
    ensures a == b
  {
    var x := a ^ b;
    forall i: bv32 | i < 32
      ensures !Bit(x, i)
    {
      BitXor(a, b, i);
    }
    NoBitsIsZero(x);
  }

  // ---------------------------------------------------------------------
  // The bit-mask macros
  // ---------------------------------------------------------------------

  /** `lwutil_bits_is_set_all(val, bit_mask)`: `(val & bit_mask) == bit_mask`. */
  function BitsIsSetAll(val: bv32, mask: bv32): (r: bool)
    ensures r <==> forall i: bv32 | i < 32 :: Bit(mask, i) ==> Bit(val, i)
    ensures mask == 0 ==> r
  {
    AllBitsIff(val, mask);
    val & mask == mask
  }

  lemma AllBitsIff(val: bv32, mask: bv32)
    ensures val & mask == mask <==> forall i: bv32 | i < 32 :: Bit(mask, i) ==> Bit(val, i)
  {
    if forall i: bv32 | i < 32 :: Bit(mask, i) ==> Bit(val, i) {
      forall i: bv32 | i < 32
        ensures Bit(val & mask, i) == Bit(mask, i)
      {
        BitAnd(val, mask, i);
      }
      BitsEqual(val & mask, mask);
    } else {
      var i: bv32 :| i < 32 && Bit(mask, i) && !Bit(val, i);
      BitAnd(val, mask, i);
    }
  }

  /** `lwutil_bits_is_set_any(val, bit_mask)`: `(val & bit_mask) != 0`. */
  function BitsIsSetAny(val: bv32, mask: bv32): (r: bool)
    ensures r <==> exists i: bv32 | i < 32 :: Bit(mask, i) && Bit(val, i)
  {
    AnyBitIff(val, mask);
    val & mask != 0
  }

  lemma AnyBitIff(val: bv32, mask: bv32)
    ensures val & mask != 0 <==> exists i: bv32 | i < 32 :: Bit(mask, i) && Bit(val, i)
  {
    if exists i: bv32 | i < 32 :: Bit(mask, i) && Bit(val, i) {
      var i: bv32 :| i < 32 && Bit(mask, i) && Bit(val, i);
      BitAnd(val, mask, i);
    } else {
      var x := val & mask;
      forall i: bv32 | i < 32
        ensures !Bit(x, i)
      {
        BitAnd(val, mask, i);
      }
      NoBitsIsZero(x);
    }
  }

  /** `lwutil_bits_set(val, bit_mask)`: `val | bit_mask`.  Every bit of the
      mask is set; every other bit is that of val. */
  function BitsSet(val: bv32, mask: bv32): (r: bv32)
    ensures forall i: bv32 | i < 32 :: Bit(r, i) == (Bit(mask, i) || Bit(val, i))
  {
    var r := val | mask;
    forall i: bv32 | i < 32
      ensures Bit(r, i) == (Bit(mask, i) || Bit(val, i))
    {
      BitOr(val, mask, i);
    }
    r
  }

  /** `lwutil_bits_clear(val, bit_mask)`: `val & ~bit_mask`.  No bit of the
      mask is set; every other bit is that of val. */
  function BitsClear(val: bv32, mask: bv32): (r: bv32)
    ensures forall i: bv32 | i < 32 :: Bit(r, i) == (!Bit(mask, i) && Bit(val, i))
  {
    var r := val & !mask;
    forall i: bv32 | i < 32
      ensures Bit(r, i) == (!Bit(mask, i) && Bit(val, i))
    {
      BitAndNot(val, mask, i);
    }
    r
  }

  /** `lwutil_bits_toggle(val, bit_mask)`: `val ^ bit_mask`.  Exactly the bits
      of the mask differ from those of val. */
  function BitsToggle(val: bv32, mask: bv32): (r: bv32)
    ensures forall i: bv32 | i < 32 :: Bit(r, i) == (Bit(mask, i) != Bit(val, i))
  {
    var r := val ^ mask;
    forall i: bv32 | i < 32
      ensures Bit(r, i) == (Bit(mask, i) != Bit(val, i))
    {
      BitXor(val, mask, i);
    }
    r
  }

  // ---------------------------------------------------------------------
  // How the bit-mask macros relate
  // ---------------------------------------------------------------------

  /** For a nonzero mask, having all its bits set implies having one set. */
  lemma SetAllImpliesSetAny(val: bv32, mask: bv32)
    requires mask != 0
    ensures BitsIsSetAll(val, mask) ==> BitsIsSetAny(val, mask)
  {
    NoBitsIsZero(mask);
    var i: bv32 :| i < 32 && Bit(mask, i);
  }

  /** After setting a mask, all of its bits are set. */
  lemma SetThenIsSetAll(val: bv32, mask: bv32)
    ensures BitsIsSetAll(BitsSet(val, mask), mask)
  {
  }

  /** After clearing a mask, none of its bits is set. */
  lemma ClearThenNotSetAny(val: bv32, mask: bv32)
    ensures !BitsIsSetAny(BitsClear(val, mask), mask)
  {
  }

  /** Clearing after setting the same mask is the same as clearing alone. */
  lemma ClearAfterSet(val: bv32, mask: bv32)
    ensures BitsClear(BitsSet(val, mask), mask) == BitsClear(val, mask)
  {
    var t := BitsSet(val, mask);
    var a, b := BitsClear(t, mask), BitsClear(val, mask);
    forall i: bv32 | i < 32
      ensures Bit(a, i) == Bit(b, i)
    {
    }
    BitsEqual(a, b);
  }

  /** Toggling twice with the same mask gives the input back. */
  lemma ToggleTwice(val: bv32, mask: bv32)
    ensures BitsToggle(BitsToggle(val, mask), mask) == val
  {
    assert BitsToggle(val, mask) == val ^ mask;
    assert BitsToggle(val ^ mask, mask) == (val ^ mask) ^ mask;
  }

  /** The bit-mask examples in dev/main.c. */
  lemma BitsExamples()
    ensures BitsSet(0x12340, 0x01) == 0x12341
    ensures BitsClear(0x12341, 0x01) == 0x12340
    ensures BitsToggle(0x1234, 0xFF) == 0x12CB
  {
  }

  // ---------------------------------------------------------------------
  // MAX, MIN and ABS
  // ---------------------------------------------------------------------

  /** `LWUTIL_MAX(x, y)`: `x > y ? x : y`. */
  function Max(x: int, y: int): (r: int)
    ensures r == x || r == y
    ensures r >= x && r >= y
  {
    if x > y then x else y
  }

  /** `LWUTIL_MIN(x, y)`: `x < y ? x : y`. */
  function Min(x: int, y: int): (r: int)
    ensures r == x || r == y
    ensures r <= x && r <= y
  {
    if x < y then x else y
  }

  /** `LWUTIL_ABS(x)`: `x < 0 ? -x : x`. */
  function Abs(x: int): (r: int)
    ensures r >= 0
    ensures r == x || r == -x
  {
    if x < 0 then -x else x
  }

  /** The MIN/MAX examples in dev/main.c. */
  lemma MinMaxExamples()
    ensures Min(10, 20) == 10 && Max(10, 20) == 20
    ensures Max(Min(10, 20), 30) == 30 && Min(Max(10, 20), 30) == 20
  {
  }

  /** For a w-bit signed input, ABS fits the unsigned type of the same width,
      and it fits the signed type itself exactly when the input is not the
      type's minimum, -2^(w-1). */
  lemma AbsOfSignedWidth(x: int, w: nat)
    requires w >= 1
    requires -(Common.Pow2(w - 1) as int) <= x < Common.Pow2(w - 1)
    ensures Abs(x) < Common.Pow2(w)
    ensures Abs(x) < Common.Pow2(w - 1) <==> x != -(Common.Pow2(w - 1) as int)
  {
  }
}

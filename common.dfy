/** C fixed-width unsigned types and the arithmetic shared by the codecs. */
module Common {

  /** `uint8_t`, `uint16_t`, `uint32_t`. */
  type u8 = x: int | 0 <= x < 0x100
  type u16 = x: int | 0 <= x < 0x1_0000
  type u32 = x: int | 0 <= x < 0x1_0000_0000

  datatype Option<T> = None | Some(value: T)

  /** 2 to the power n: `1U << n`, so `x >> n` is `x / Pow2(n)`. */
  function Pow2(n: nat): (r: nat)
    ensures r >= 1
  {
    if n == 0 then 1 else 2 * Pow2(n - 1)
  }

  lemma DivNonNeg(x: nat, d: nat)
    requires d > 0
    ensures x / d >= 0
  {
  }

  /** `x >> n` on an unsigned value. */
  function Shr(x: nat, n: nat): nat
  {
    DivNonNeg(x, Pow2(n));
    x / Pow2(n)
  }

  lemma {:induction false} Pow2Add(a: nat, b: nat)
    ensures Pow2(a + b) == Pow2(a) * Pow2(b)
  {
    if a > 0 {
      Pow2Add(a - 1, b);
    }
  }

  lemma {:induction false} Pow2Monotone(a: nat, b: nat)
    requires a <= b
    ensures Pow2(a) <= Pow2(b)
  {
    if a < b {
      Pow2Monotone(a, b - 1);
    }
  }

  /** Pow2Monotone without a precondition, for use where a <= b is not known. */
  lemma Pow2Le(a: nat, b: nat)
    ensures a <= b ==> Pow2(a) <= Pow2(b)
  {
    if a <= b {
      Pow2Monotone(a, b);
    }
  }

  /** The powers of two the library's shifts use. */
  lemma Pow2Table()
    ensures Pow2(4) == 0x10 && Pow2(7) == 0x80 && Pow2(8) == 0x100
    ensures Pow2(14) == 0x4000 && Pow2(16) == 0x1_0000 && Pow2(21) == 0x20_0000
    ensures Pow2(24) == 0x100_0000 && Pow2(28) == 0x1000_0000 && Pow2(32) == 0x1_0000_0000
  {
    assert Pow2(1) == 2;
    assert Pow2(2) == 4;
    assert Pow2(3) == 8;
    assert Pow2(4) == 0x10;
    assert Pow2(5) == 0x20;
    assert Pow2(6) == 0x40;
    assert Pow2(7) == 0x80;
    assert Pow2(8) == 0x100;
    Pow2Add(7, 7);
    Pow2Add(8, 8);
    Pow2Add(14, 7);
    Pow2Add(16, 8);
    Pow2Add(14, 14);
    Pow2Add(16, 16);
  }

  lemma ModSmall(x: nat, n: nat)
    requires x < n
    ensures x % n == x
  {
  }

  lemma MulLe(x: nat, y: nat, z: nat)
    requires x <= y
    ensures x * z <= y * z
  {
  }

  /** A positive multiple of d is at least d. */
  lemma MulAtLeast(d: int, k: int)
    requires d > 0 && k >= 1
    ensures d * k >= d
  {
    if k > 1 {
      MulAtLeast(d, k - 1);
      assert d * k == d * (k - 1) + d;
    }
  }

  lemma MulSwap(a: int, b: int, c: int)
    ensures a * (b * c) == b * (a * c)
  {
  }

  /** Quotient and remainder are determined by the division equation. */
  lemma DivUnique(x: int, d: int, q: int, r: int)
    requires d > 0 && 0 <= r < d && x == d * q + r
    ensures x / d == q && x % d == r
  {
    var q', r' := x / d, x % d;
    assert x == d * q' + r';
    assert d * q - d * q' == r' - r;
    assert d * (q - q') == r' - r;
    if q > q' {
      MulAtLeast(d, q - q');
    } else if q < q' {
      MulAtLeast(d, q' - q);
    }
  }

  lemma DivDiv(x: nat, a: nat, b: nat)
    requires a > 0 && b > 0
    ensures x / a / b == x / (a * b)
  {
    var y := x / a;
    var q, r1, r2 := y / b, x % a, y % b;
    assert x == a * y + r1;
    assert y == b * q + r2;
    assert a * y == a * (b * q) + a * r2;
    assert a * (b * q) == (a * b) * q;
    MulLe(r2, b - 1, a);
    assert (b - 1) * a == a * b - a;
    DivUnique(x, a * b, q, a * r2 + r1);
  }

  /** Bitwise OR of two naturals: C's `a | b` on unsigned operands. */
  function Or(a: nat, b: nat): nat
    decreases a + b
  {
    if a == 0 then b
    else if b == 0 then a
    else 2 * Or(a / 2, b / 2) + (if a % 2 == 1 || b % 2 == 1 then 1 else 0)
  }

  /** OR of a value below 2^k with a multiple of 2^k is their sum: the bits do not overlap. */
  lemma {:induction false} OrDisjoint(a: nat, c: nat, k: nat)
    requires a < Pow2(k)
    ensures Or(a, c * Pow2(k)) == a + c * Pow2(k)
  {
    if k > 0 && a != 0 && c != 0 {
      var b := c * Pow2(k);
      assert b == 2 * (c * Pow2(k - 1));
      OrDisjoint(a / 2, c, k - 1);
    }
  }

  /** Dropping i > 0 elements of a + t drops i - 1 elements of t. */
  lemma SliceCons<T>(a: T, t: seq<T>, i: nat)
    requires 0 < i <= |t| + 1
    ensures ([a] + t)[i..] == t[i - 1..]
  {
  }
}

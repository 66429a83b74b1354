/** Exact facts about powers of two, division and remainder that the decoding
    and encoding modules share, and the machine integers of the source as
    bounded naturals with the wrap-around written out. */
module Arith {
  const TWO64: nat := 0x1_0000_0000_0000_0000
  const TWO128: nat := 0x1_0000_0000_0000_0000_0000_0000_0000_0000
  const TWO256: nat := 0x1_0000_0000_0000_0000_0000_0000_0000_0000_0000_0000_0000_0000_0000_0000_0000_0000

  type u64 = x: nat | x < TWO64

  function WrappingAdd(a: u64, b: u64): (r: u64) { (a + b) % TWO64 }

  function WrappingSub(a: u64, b: u64): (r: u64) { (a - b) % TWO64 }

  function WrappingMul(a: u64, b: u64): (r: u64) { (a * b) % TWO64 }

  /** The quotient rounded up. */
  function DivCeil(x: nat, d: nat): (q: nat)
    requires d > 0
  {
    (x + d - 1) / d
  }

  function Pow2(n: nat): (p: nat)
    ensures p >= 1
  {
    if n == 0 then 1 else 2 * Pow2(n - 1)
  }

  // Exponents are passed as variables throughout, so that the solver does not
  // unroll Pow2 on large literals.
  lemma Pow2Word(n: nat)
    ensures n == 64 ==> Pow2(n) == TWO64
    ensures n == 128 ==> Pow2(n) == TWO128
    ensures n == 256 ==> Pow2(n) == TWO256
  {
    var byte: nat :| byte == 8;
    Pow2Byte();
    Pow2Doubles(byte);
  }

  /** A width whose modulus is 2^256, known only to be large. */
  lemma WideWord() returns (w: nat)
    ensures w >= 223 && Pow2(w) == TWO256
  {
    w := 256;
    Pow2Word(w);
  }

  /** A word's modulus splits at any bit position. */
  lemma Pow2Split(width: nat, at: nat)
    requires at <= width
    ensures Pow2(at) * Pow2(width - at) == Pow2(width)
    ensures width == 64 ==> Pow2(at) * Pow2(width - at) == TWO64
    ensures width == 128 ==> Pow2(at) * Pow2(width - at) == TWO128
    ensures width == 256 ==> Pow2(at) * Pow2(width - at) == TWO256
  {
    Pow2Add(at, width - at);
    Pow2Word(width);
  }

  lemma Pow2Doubles(n: nat)
    requires Pow2(n) == 256
    ensures Pow2(8 * n) == TWO64 && Pow2(16 * n) == TWO128 && Pow2(32 * n) == TWO256
  {
    Pow2Square(n, 256);
    Pow2Square(2 * n, 0x1_0000);
    Pow2Square(4 * n, 0x1_0000_0000);
    Pow2Square(8 * n, TWO64);
    Pow2Square(16 * n, TWO128);
  }

  lemma Pow2Square(n: nat, p: nat)
    requires Pow2(n) == p
    ensures Pow2(2 * n) == p * p
  {
    Pow2Add(n, n);
  }

  lemma Pow2Byte()
    ensures Pow2(4) == 16 && Pow2(8) == 256
  {
    assert Pow2(2) == 4;
    Pow2Add(2, 2);
    Pow2Add(4, 4);
  }

  lemma {:induction false} Pow2Add(a: nat, b: nat)
    ensures Pow2(a + b) == Pow2(a) * Pow2(b)
  {
    if a > 0 {
      Pow2Add(a - 1, b);
      MulAssoc(2, Pow2(a - 1), Pow2(b));
    }
  }

  lemma {:induction false} Pow2Monotone(a: nat, b: nat)
    requires a <= b
    ensures Pow2(a) <= Pow2(b)
    ensures a < b ==> Pow2(a) < Pow2(b)
  {
    if a < b {
      Pow2Monotone(a, b - 1);
    }
  }

  lemma MulAssoc(a: int, b: int, c: int)
    ensures a * b * c == a * (b * c)
  {
  }

  lemma MulSwap(a: int, b: int, c: int)
    ensures a * (b * c) == b * (a * c)
  {
    MulAssoc(a, b, c);
    MulAssoc(b, a, c);
  }

  lemma MulDistrib(a: int, b: int, c: int)
    ensures a * (b + c) == a * b + a * c
    ensures a * (b - c) == a * b - a * c
  {
  }

  lemma MulMonotone(a: int, b: int, c: int)
    requires a <= b && 0 <= c
    ensures a * c <= b * c
  {
  }

  lemma MulStrict(a: int, b: int, c: int)
    requires a < b && 0 < c
    ensures a * c < b * c
  {
  }

  /** The quotient and remainder are the only pair that fits. */
  lemma DivModUnique(x: int, d: int, q: int, r: int)
    requires d > 0 && 0 <= r < d
    requires x == q * d + r
    ensures x / d == q && x % d == r
  {
    var q', r' := x / d, x % d;
    assert x == q' * d + r';
    if q < q' {
      MulMonotone(q + 1, q', d);
      MulDistrib(d, q, 1);
      assert false;
    } else if q' < q {
      MulMonotone(q' + 1, q, d);
      MulDistrib(d, q', 1);
      assert false;
    }
  }

  lemma DivModDef(x: int, d: int)
    requires d > 0
    ensures x == (x / d) * d + x % d && 0 <= x % d < d
  {
  }

  lemma ModAddMultiple(x: int, k: int, d: int)
    requires d > 0
    ensures (x + k * d) % d == x % d
    ensures (x + k * d) / d == x / d + k
  {
    DivModDef(x, d);
    MulDistrib(d, x / d, k);
    DivModUnique(x + k * d, d, x / d + k, x % d);
  }

  /** Congruence modulo d as an explicit multiple. */
  lemma CongruentMultiple(x: int, y: int, d: int) returns (k: int)
    requires d > 0 && x % d == y % d
    ensures x == y + k * d
  {
    k := x / d - y / d;
    DivModDef(x, d);
    DivModDef(y, d);
    MulDistrib(d, x / d, y / d);
  }

  lemma ModSelf(x: int, d: int)
    requires d > 0 && 0 <= x < d
    ensures x % d == x && x / d == 0
  {
    DivModUnique(x, d, 0, x);
  }

  /** A remainder modulo a multiple can be reduced first by that multiple. */
  lemma ModMod(x: int, d: int, k: int)
    requires d > 0 && k > 0
    ensures d * k > 0
    ensures x % (d * k) % d == x % d
  {
    MulStrict(0, d, k);
    var m := d * k;
    DivModDef(x, m);
    var q := x / m;
    assert x % m == x - q * m;
    assert q * m == (q * k) * d by { MulAssoc(q, d, k); MulAssoc(q, k, d); }
    ModAddMultiple(x, -(q * k), d);
    assert x + -(q * k) * d == x - (q * k) * d;
  }

  lemma ModAddCong(x: int, y: int, z: int, d: int)
    requires d > 0 && x % d == y % d
    ensures (x + z) % d == (y + z) % d
  {
    var k := CongruentMultiple(x, y, d);
    ModAddMultiple(y + z, k, d);
  }

  lemma ModSubCong(x: int, y: int, z: int, d: int)
    requires d > 0 && x % d == y % d
    ensures (z - x) % d == (z - y) % d
  {
    var k := CongruentMultiple(x, y, d);
    assert z - x == z - y + (-k) * d by { MulDistrib(d, 0, k); }
    ModAddMultiple(z - y, -k, d);
  }

  lemma ModMulCong(x: int, y: int, z: int, d: int)
    requires d > 0 && x % d == y % d
    ensures (x * z) % d == (y * z) % d
  {
    var k := CongruentMultiple(x, y, d);
    assert x * z == y * z + (k * z) * d by {
      MulDistrib(z, y, k * d);
      MulAssoc(k, d, z);
      MulAssoc(k, z, d);
    }
    ModAddMultiple(y * z, k * z, d);
  }

  lemma DivDiv(x: int, a: int, b: int)
    requires 0 <= x && a > 0 && b > 0
    ensures a * b > 0
    ensures x / a / b == x / (a * b)
  {
    MulStrict(0, a, b);
    var q, r := x / a, x % a;
    var q2, r2 := q / b, q % b;
    DivModDef(x, a);
    DivModDef(q, b);
    assert x == q2 * (a * b) + (r2 * a + r) by {
      MulDistrib(a, q2 * b, r2);
      MulAssoc(q2, b, a);
    }
    MulMonotone(r2 + 1, b, a);
    MulDistrib(a, r2, 1);
    MulStrict(-1, r2, a);
    assert 0 <= r2 * a by { MulMonotone(0, r2, a); }
    DivModUnique(x, a * b, q2, r2 * a + r);
  }

  /** Dividing out a common factor of the dividend and the divisor's base. */
  lemma MulDivCancel(x: int, d: int)
    requires d > 0
    ensures (x * d) / d == x && (x * d) % d == 0
  {
    DivModUnique(x * d, d, x, 0);
  }

  /** Multiples of a * b do not reach the digit of weight a in base b. */
  lemma DigitIgnoresHigh(x: int, k: int, a: int, b: int)
    requires a > 0 && b > 0
    ensures (x + (k * b) * a) / a % b == x / a % b
  {
    ModAddMultiple(x, k * b, a);
    ModAddMultiple(x / a, k, b);
  }

  lemma DivBound(x: int, d: int, k: int)
    requires d > 0 && 0 <= x < k * d
    ensures 0 <= x / d < k
  {
    DivModDef(x, d);
    if x / d >= k {
      MulMonotone(k, x / d, d);
      assert false;
    }
    if x / d < 0 {
      MulMonotone(x / d, -1, d);
      assert false;
    }
  }
}

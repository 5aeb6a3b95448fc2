/**
 * Powers of two and the division facts the bit-level encoders need.
 * Dafny's `/` and `%` are Euclidean; every use here is on non-negative
 * operands, where they agree with JavaScript's `Math.floor(a / b)` and `%`.
 */
module Arith {

  function Pow2(n: nat): (p: nat)
    ensures p >= 1
  {
    if n == 0 then 1 else 2 * Pow2(n - 1)
  }

  /** `2^32`, the modulus of JavaScript's 32-bit shift results. */
  const U32: nat := 0x1_0000_0000

  lemma Pow2Of32()
    ensures Pow2(32) == U32
  {
    assert Pow2(8) == 256;
    Pow2Add(8, 8);
    Pow2Add(16, 16);
  }

  /** `x >> k` on a non-negative number. */
  function Shr(x: nat, k: nat): nat
  {
    var p := Pow2(k);
    DivNonNegative(x, p);
    x / p
  }

  /** `x << k` as a 32-bit pattern. */
  function Shl32(x: nat, k: nat): nat
  {
    (x * Pow2(k)) % U32
  }

  lemma {:induction false} Pow2Add(a: nat, b: nat)
    ensures Pow2(a + b) == Pow2(a) * Pow2(b)
  {
    if a > 0 {
      Pow2Add(a - 1, b);
    }
  }

  lemma Pow2Monotone(a: nat, b: nat)
    requires a <= b
    ensures Pow2(a) <= Pow2(b)
  {
    Pow2Add(a, b - a);
  }

  lemma MulLe(a: int, b: int, c: int)
    requires a <= b && c >= 0
    ensures a * c <= b * c
  {
  }

  /** Quotient and remainder are the unique pair with `x == q * d + r`, `0 <= r < d`. */
  lemma DivModUnique(x: int, d: int, q: int, r: int)
    requires d > 0 && x == q * d + r && 0 <= r < d
    ensures x / d == q && x % d == r
  {
    var q0, r0 := x / d, x % d;
    assert x == q0 * d + r0;
    if q0 > q {
      MulLe(1, q0 - q, d);
      assert false;
    } else if q0 < q {
      MulLe(1, q - q0, d);
      assert false;
    }
  }

  /** Dividing twice is dividing by the product, and the digit in between is read off the remainder. */
  lemma DivDiv(x: nat, a: nat, b: nat)
    requires a > 0 && b > 0
    ensures x / a / b == x / (a * b)
    ensures (x / a) % b == (x % (a * b)) / a
  {
    MulLe(1, a, b);
    var ab := a * b;
    var q, r := x / ab, x % ab;
    var r1, r0 := r / a, r % a;
    assert r == r1 * a + r0;
    if r1 >= b {
      MulLe(b, r1, a);
      assert false;
    }
    assert q * ab == (q * b) * a;
    assert (q * b + r1) * a == (q * b) * a + r1 * a;
    assert x == (q * b + r1) * a + r0;
    DivModUnique(x, a, q * b + r1, r0);
    DivModUnique(q * b + r1, b, q, r1);
  }

  /** Reducing modulo a multiple first does not change the remainder. */
  lemma ModMod(x: nat, a: nat, b: nat)
    requires a > 0 && b > 0
    ensures (x % (a * b)) % a == x % a
  {
    MulLe(1, a, b);
    var ab := a * b;
    var q, r := x / ab, x % ab;
    assert q * ab == (q * b) * a;
    assert r == (r / a) * a + r % a;
    assert (q * b + r / a) * a == (q * b) * a + (r / a) * a;
    assert x == (q * b + r / a) * a + r % a;
    DivModUnique(x, a, q * b + r / a, r % a);
  }

  lemma DivNonNegative(x: nat, d: nat)
    requires d > 0
    ensures x / d >= 0
  {
    var q := x / d;
    assert x == q * d + x % d;
    if q < 0 {
      MulLe(q, -1, d);
      assert false;
    }
  }

  /** Reducing modulo `a * (b * c)` first does not change digit `x / a % b`. */
  lemma DigitOfLow(x: nat, a: nat, b: nat, c: nat)
    requires a > 0 && b > 0 && c > 0
    ensures (x % (a * (b * c))) / a % b == x / a % b
  {
    MulLe(1, b, c);
    DivDiv(x, a, b * c);
    DivNonNegative(x, a);
    ModMod(x / a, b, c);
  }

  /** Splitting a remainder at `m`: the digit `x / m % b` above the remainder modulo `m`. */
  lemma ModSplit(x: nat, m: nat, b: nat)
    requires m > 0 && b > 0
    ensures x % (m * b) == (x / m % b) * m + x % m
  {
    var r := x % (m * b);
    DivDiv(x, m, b);
    ModMod(x, m, b);
    assert r == (r / m) * m + r % m;
  }

  /** A number below the modulus is its own remainder. */
  lemma ModSmall(x: nat, m: nat)
    requires x < m
    ensures x % m == x
  {
    DivModUnique(x, m, 0, x);
  }

  /**
   * Shifting in a byte: two numbers equal modulo `2^k` stay equal modulo
   * `2^(k+8)` after `* 256 + b`.
   */
  lemma ShiftInCongruent(x: nat, y: nat, k: nat, b: nat)
    requires x % Pow2(k) == y % Pow2(k)
    ensures (x * 256 + b) % Pow2(k + 8) == (y * 256 + b) % Pow2(k + 8)
  {
    var m := Pow2(k);
    Pow2Add(k, 8);
    assert Pow2(8) == 256;
    var M := Pow2(k + 8);
    assert M == m * 256;
    var c := x % m * 256 + b;
    ShiftIn(x, m, b);
    ShiftIn(y, m, b);
    var t := c % M;
    assert c == (c / M) * M + t;
    assert (x / m) * M + c == (x / m + c / M) * M + t;
    assert (y / m) * M + c == (y / m + c / M) * M + t;
    DivModUnique(x * 256 + b, M, x / m + c / M, t);
    DivModUnique(y * 256 + b, M, y / m + c / M, t);
  }

  lemma ShiftIn(x: nat, m: nat, b: nat)
    requires m > 0
    ensures x * 256 + b == (x / m) * (m * 256) + (x % m * 256 + b)
  {
    assert x == (x / m) * m + x % m;
    assert x * 256 == ((x / m) * m) * 256 + (x % m) * 256;
    assert ((x / m) * m) * 256 == (x / m) * (m * 256);
  }

  /** Reducing modulo `2^n` and then modulo a smaller power of two is reducing modulo the smaller one. */
  lemma ModPow2Smaller(x: nat, k: nat, n: nat)
    requires k <= n
    ensures (x % Pow2(n)) % Pow2(k) == x % Pow2(k)
  {
    Pow2Add(k, n - k);
    ModMod(x, Pow2(k), Pow2(n - k));
  }

  /** The low `k` bits moved up into the high part of a 5-bit group. */
  lemma LowBitsShifted(x: nat, k: nat)
    requires k < 5
    ensures (x * Pow2(5 - k)) % 32 == (x % Pow2(k)) * Pow2(5 - k)
    ensures (x % Pow2(k)) * Pow2(5 - k) < 32
  {
    var m, s := Pow2(k), Pow2(5 - k);
    Pow2Add(k, 5 - k);
    assert Pow2(5) == 32;
    assert m * s == 32;
    var r := x % m;
    assert x == (x / m) * m + r;
    assert x * s == ((x / m) * m) * s + r * s;
    assert ((x / m) * m) * s == (x / m) * 32;
    MulLe(r, m - 1, s);
    assert r * s < 32;
    DivModUnique(x * s, 32, x / m, r * s);
  }
}

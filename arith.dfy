/** Modular arithmetic facts and the two's-complement readings of lane values. */
module Arith {

  lemma MulAtLeast(d: int, m: int)
    requires d >= 1 && m > 0
    ensures d * m >= m
  {
  }

  /** Euclidean division has one quotient and one remainder. */
  lemma ModUnique(a: int, q: int, r: int, m: int)
    requires m > 0 && a == q * m + r && 0 <= r < m
    ensures a % m == r && a / m == q
  {
    var q', r' := a / m, a % m;
    assert a == q' * m + r';
    assert (q - q') * m == r' - r;
    if q > q' {
      MulAtLeast(q - q', m);
    } else if q < q' {
      MulAtLeast(q' - q, m);
    }
  }

  /** Adding a multiple of the modulus does not change a remainder. */
  lemma ModShift(x: int, k: int, m: int)
    requires m > 0
    ensures (x + k * m) % m == x % m
  {
    ModUnique(x + k * m, x / m + k, x % m, m);
  }

  /** Reduction modulo m * n, then modulo m, is reduction modulo m. */
  lemma ModOfMod(x: int, m: int, n: int)
    requires m > 0 && n > 0
    ensures (x % (m * n)) % m == x % m
  {
    var q := x / (m * n);
    assert x == q * (m * n) + x % (m * n);
    assert q * (m * n) == (q * n) * m;
    ModShift(x % (m * n), q * n, m);
  }

  /** An unsigned lane value of modulus m (a power of two), read as a two's-complement integer. */
  function Signed(u: int, m: int): int
    requires m >= 2 && m % 2 == 0
  {
    if u < m / 2 then u else u - m
  }

  /** Conversion of any integer into a signed integer type of m values: its residue modulo m,
    * read as two's complement (what a cast to int8_t, int16_t or int32_t does).
    */
  function Wrap(x: int, m: int): (r: int)
    requires m >= 2 && m % 2 == 0
    ensures -(m / 2) <= r < m / 2
  {
    Signed(x % m, m)
  }

  /** Saturation of x into the signed range of m values (what PADDSW does to each sum). */
  function Saturate(x: int, m: int): (r: int)
    requires m >= 2 && m % 2 == 0
    ensures -(m / 2) <= r < m / 2
    ensures -(m / 2) <= x < m / 2 ==> r == x
    ensures x < -(m / 2) ==> r == -(m / 2)
    ensures x >= m / 2 ==> r == m / 2 - 1
  {
    if x < -(m / 2) then -(m / 2) else if x >= m / 2 then m / 2 - 1 else x
  }

  /** Wrap depends only on the residue of its argument. */
  lemma WrapShift(x: int, k: int, m: int)
    requires m >= 2 && m % 2 == 0
    ensures Wrap(x + k * m, m) == Wrap(x, m)
  {
    ModShift(x, k, m);
  }

  /** A value already in the signed range is its own Wrap. */
  lemma WrapInRange(x: int, m: int)
    requires m >= 2 && m % 2 == 0
    requires -(m / 2) <= x < m / 2
    ensures Wrap(x, m) == x
  {
    if x < 0 {
      ModUnique(x, -1, x + m, m);
    } else {
      ModUnique(x, 0, x, m);
    }
  }

  /** Encoding a value of the signed range as its unsigned residue, and reading it back, is the identity. */
  lemma SignedRoundTrip(s: int, m: int)
    requires m >= 2 && m % 2 == 0
    requires -(m / 2) <= s < m / 2
    ensures 0 <= s % m < m
    ensures Signed(s % m, m) == s
  {
    WrapInRange(s, m);
  }

  /** Reading a lane value as signed and encoding it again gives back the lane value. */
  lemma UnsignedRoundTrip(u: int, m: int)
    requires m >= 2 && m % 2 == 0 && 0 <= u < m
    ensures Signed(u, m) % m == u
  {
    if u < m / 2 {
      ModUnique(u, 0, u, m);
    } else {
      ModUnique(u - m, -1, u, m);
    }
  }

  /** A lane value differs from its signed reading by a multiple of the modulus (0 or -m). */
  lemma SignedOffset(u: int, m: int)
    requires m >= 2 && m % 2 == 0
    ensures Signed(u, m) == u + (if u < m / 2 then 0 else -1) * m
  {
  }

  /** Wrap-around addition of unsigned lanes (z is their sum modulo m) is wrap-around addition
    * of their signed readings.
    */
  lemma {:induction false} SignedSum(ua: int, ub: int, z: int, m: int)
    requires m >= 2 && m % 2 == 0 && z == (ua + ub) % m
    ensures Signed(z, m) == Wrap(Signed(ua, m) + Signed(ub, m), m)
  {
    var ka := if ua < m / 2 then 0 else -1;
    var kb := if ub < m / 2 then 0 else -1;
    SignedOffset(ua, m);
    SignedOffset(ub, m);
    assert Signed(ua, m) + Signed(ub, m) == (ua + ub) + (ka + kb) * m;
    WrapShift(ua + ub, ka + kb, m);
  }

  /** The low bits of an unsigned product (z, the product modulo m) are the low bits of the signed product. */
  lemma {:induction false} SignedProduct(ua: int, ub: int, z: int, m: int)
    requires m >= 2 && m % 2 == 0 && z == (ua * ub) % m
    ensures Signed(z, m) == Wrap(Signed(ua, m) * Signed(ub, m), m)
  {
    var ka := if ua < m / 2 then 0 else -1;
    var kb := if ub < m / 2 then 0 else -1;
    SignedOffset(ua, m);
    SignedOffset(ub, m);
    var sa, sb := ua + ka * m, ub + kb * m;
    assert sa * sb == ua * ub + (ka * ub + kb * ua + ka * kb * m) * m;
    WrapShift(ua * ub, ka * ub + kb * ua + ka * kb * m, m);
  }

  /** The low byte of the product of two 16-bit values depends only on their low bytes. */
  lemma LowByteOfProduct(a0: int, a1: int, b0: int, b1: int)
    ensures (((a0 + 0x100 * a1) * (b0 + 0x100 * b1)) % 0x1_0000) % 0x100 == (a0 * b0) % 0x100
  {
    var p := (a0 + 0x100 * a1) * (b0 + 0x100 * b1);
    assert p == a0 * b0 + (a0 * b1 + a1 * b0 + 0x100 * a1 * b1) * 0x100;
    ModOfMod(p, 0x100, 0x100);
    ModShift(a0 * b0, a0 * b1 + a1 * b0 + 0x100 * a1 * b1, 0x100);
  }

  function Pow2(n: nat): (p: nat)
    ensures p >= 1
  {
    if n == 0 then 1 else 2 * Pow2(n - 1)
  }

  /** The product of two values below m is below m * m. */
  lemma MulBelow(x: int, y: int, m: int)
    requires 0 <= x < m && 0 <= y < m
    ensures 0 <= x * y < m * m
  {
    assert x * y <= x * m;
    assert x * m < m * m;
  }

  lemma DivAtMost(x: nat, d: nat)
    requires d >= 1
    ensures 0 <= x / d <= x
  {
    var q := x / d;
    assert x == q * d + x % d;
    if q > 0 {
      MulAtLeast(d, q);
      assert q * d >= q;
    }
  }
}

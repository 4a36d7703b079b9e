/**
 * Rust's fixed-width integer types and the few standard-library operations on
 * them that the sketch relies on: shifts on `u64`, `u64::leading_zeros`,
 * `to_le_bytes` and the `as` casts between signed and unsigned types.
 * Integers are unbounded here, so every width is written out explicitly.
 */
module Primitives {

  datatype Option<T> = None | Some(value: T)

  type u8 = x: int | 0 <= x < 0x100
  type u16 = x: int | 0 <= x < 0x1_0000
  type u32 = x: int | 0 <= x < 0x1_0000_0000
  type u64 = x: int | 0 <= x < 0x1_0000_0000_0000_0000
  type u128 = x: int | 0 <= x < 0x1_0000_0000_0000_0000_0000_0000_0000_0000

  type i8 = x: int | -0x80 <= x < 0x80
  type i16 = x: int | -0x8000 <= x < 0x8000
  type i32 = x: int | -0x8000_0000 <= x < 0x8000_0000
  type i64 = x: int | -0x8000_0000_0000_0000 <= x < 0x8000_0000_0000_0000
  type i128 = x: int | -0x8000_0000_0000_0000_0000_0000_0000_0000 <= x < 0x8000_0000_0000_0000_0000_0000_0000_0000

  /** 2^n */
  function Pow2(n: nat): (r: nat)
    ensures r >= 1
  {
    if n == 0 then 1 else 2 * Pow2(n - 1)
  }

  /** 256^n, the number of values that fit in n bytes */
  function Pow256(n: nat): (r: nat)
    ensures r >= 1
  {
    if n == 0 then 1 else 0x100 * Pow256(n - 1)
  }

  lemma {:induction false} Pow2Add(a: nat, b: nat)
    ensures Pow2(a) * Pow2(b) == Pow2(a + b)
  {
    if a > 0 {
      Pow2Add(a - 1, b);
      calc {
        Pow2(a) * Pow2(b);
        (2 * Pow2(a - 1)) * Pow2(b);
        2 * (Pow2(a - 1) * Pow2(b));
        2 * Pow2(a - 1 + b);
        Pow2(a + b);
      }
    }
  }

  lemma {:induction false} Pow2Monotone(a: nat, b: nat)
    requires a <= b
    ensures Pow2(a) <= Pow2(b)
  {
    if a < b {
      Pow2Monotone(a, b - 1);
    }
  }

  lemma Pow2Of64()
    ensures Pow2(64) == 0x1_0000_0000_0000_0000
  {
    assert Pow2(1) == 2;
    Pow2Add(1, 1);
    assert Pow2(2) == 4;
    Pow2Add(2, 2);
    assert Pow2(4) == 0x10;
    Pow2Add(4, 4);
    assert Pow2(8) == 0x100;
    Pow2Add(8, 8);
    assert Pow2(16) == 0x1_0000;
    Pow2Add(16, 16);
    assert Pow2(32) == 0x1_0000_0000;
    Pow2Add(32, 32);
  }

  /** `x >> k` on `u64`; Rust panics on a shift amount of 64 or more. */
  function ShiftRight(x: u64, k: nat): (r: u64)
    requires k < 64
    ensures r * Pow2(k) <= x < (r + 1) * Pow2(k)
  {
    Quotient(x, Pow2(k))
  }

  /** Integer division of naturals, bracketed by the divisor's multiples. */
  function Quotient(x: nat, d: nat): (q: nat)
    requires d > 0
    ensures q <= x
    ensures q * d <= x < (q + 1) * d
  {
    DivBounds(x, d);
    x / d
  }

  /** `x << k` on `u64`: the bits shifted past bit 63 are discarded. */
  function ShiftLeft(x: u64, k: nat): (r: u64)
    requires k < 64
    ensures r == (x % Pow2(64 - k)) * Pow2(k)
  {
    ShiftLeftDropsHighBits(x, k);
    (x * Pow2(k)) % 0x1_0000_0000_0000_0000
  }

  lemma DivBounds(x: nat, d: nat)
    requires d > 0
    ensures x / d <= x
    ensures (x / d) * d <= x < (x / d + 1) * d
  {
    var q, r := x / d, x % d;
    assert x == q * d + r;
    assert (q + 1) * d == q * d + d;
    MulMonotone(1, d, q);
    assert q <= q * d;
  }

  /** (q * n + x) % n == x for 0 <= x < n */
  lemma ModOfMultiplePlus(q: nat, n: nat, x: nat)
    requires x < n
    ensures (q * n + x) % n == x
  {
    var y := q * n + x;
    var k := y / n - q;
    assert y == (y / n) * n + y % n;
    assert k * n == x - y % n by {
      assert (y / n - q) * n == (y / n) * n - q * n;
    }
    if k >= 1 {
      MulMonotone(1, k, n);
    } else if k <= -1 {
      MulMonotone(k, -1, n);
    }
  }

  lemma MulMonotone(a: int, b: int, n: nat)
    requires a <= b
    ensures a * n <= b * n
  {
    assert b * n - a * n == (b - a) * n;
  }

  lemma MulDistributes(q: int, d: int, r: int, p: int)
    ensures (q * d + r) * p == q * (d * p) + r * p
  {
  }

  lemma ShiftLeftDropsHighBits(x: u64, k: nat)
    requires k < 64
    ensures (x * Pow2(k)) % 0x1_0000_0000_0000_0000 == (x % Pow2(64 - k)) * Pow2(k)
  {
    Pow2Add(64 - k, k);
    Pow2Of64();
    ScaledMod(x, Pow2(64 - k), Pow2(k));
  }

  /** Scaling by p commutes with taking the remainder, once the modulus is scaled too. */
  lemma ScaledMod(x: nat, d: nat, p: nat)
    requires d > 0 && p > 0
    ensures (x * p) % (d * p) == (x % d) * p
  {
    var q, r := x / d, x % d;
    assert x == q * d + r;
    MulDistributes(q, d, r, p);
    ScaledBelow(r, d, p);
    ModOfMultiplePlus(q, d * p, r * p);
  }

  /**
   * Number of zero bits above the highest one-bit of a w-bit word, scanning
   * from bit w-1 downwards; w for the zero word.
   */
  function LeadingZerosIn(x: nat, w: nat): (n: nat)
    requires x < Pow2(w)
    ensures n <= w
    ensures n == w <==> x == 0
    ensures x > 0 ==> Pow2(w - n - 1) <= x < Pow2(w - n)
    decreases w
  {
    if w == 0 then 0
    else if x >= Pow2(w - 1) then 0
    else 1 + LeadingZerosIn(x, w - 1)
  }

  /** The leading-zero count is the only n for which x lies in [2^(w-n-1), 2^(w-n)). */
  lemma LeadingZerosUnique(x: nat, w: nat, n: nat)
    requires 0 < x < Pow2(w) && n < w
    requires Pow2(w - n - 1) <= x < Pow2(w - n)
    ensures LeadingZerosIn(x, w) == n
  {
    var n' := LeadingZerosIn(x, w);
    if n' < n {
      Pow2Monotone(w - n, w - n' - 1);
    } else if n < n' {
      Pow2Monotone(w - n', w - n - 1);
    }
  }

  /** Shifting a nonzero w-bit word left by k into a (w+k)-bit word keeps its leading zeros. */
  lemma LeadingZerosScaled(x: nat, w: nat, k: nat)
    requires 0 < x < Pow2(w)
    ensures x * Pow2(k) < Pow2(w + k)
    ensures LeadingZerosIn(x * Pow2(k), w + k) == LeadingZerosIn(x, w)
  {
    var n, p := LeadingZerosIn(x, w), Pow2(k);
    ScaledBelow(x, Pow2(w), p);
    Pow2Add(w, k);
    ScaledAbove(Pow2(w - n - 1), x, p);
    Pow2Add(w - n - 1, k);
    ScaledBelow(x, Pow2(w - n), p);
    Pow2Add(w - n, k);
    assert w - n - 1 + k == w + k - n - 1;
    LeadingZerosUnique(x * p, w + k, n);
  }

  lemma ScaledBelow(x: nat, b: nat, p: nat)
    requires x < b
    ensures x * p <= b * p
    ensures p > 0 ==> x * p < b * p
  {
    MulMonotone(x, b - 1, p);
    assert (b - 1) * p == b * p - p;
  }

  lemma ScaledAbove(a: nat, x: nat, p: nat)
    requires a <= x
    ensures a * p <= x * p
  {
    MulMonotone(a, x, p);
  }

  /** `u64::leading_zeros` */
  function LeadingZeros(x: u64): (n: nat)
    ensures n <= 64
    ensures n == 64 <==> x == 0
  {
    Pow2Of64();
    LeadingZerosIn(x, 64)
  }

  function Max(a: int, b: int): (r: int)
    ensures r >= a && r >= b
    ensures r == a || r == b
  {
    if a >= b then a else b
  }

  /** The value ranges of the 1-, 2-, 4-, 8- and 16-byte integer types. */
  lemma Pow256Widths()
    ensures Pow256(1) == 0x100
    ensures Pow256(2) == 0x1_0000
    ensures Pow256(4) == 0x1_0000_0000
    ensures Pow256(8) == 0x1_0000_0000_0000_0000
    ensures Pow256(16) == 0x1_0000_0000_0000_0000_0000_0000_0000_0000
  {
    assert Pow256(2) == 0x1_0000;
    assert Pow256(3) == 0x100_0000;
    assert Pow256(4) == 0x1_0000_0000;
    assert Pow256(5) == 0x100_0000_0000;
    assert Pow256(6) == 0x1_0000_0000_0000;
    assert Pow256(7) == 0x100_0000_0000_0000;
    assert Pow256(8) == 0x1_0000_0000_0000_0000;
    assert Pow256(9) == 0x100_0000_0000_0000_0000;
    assert Pow256(10) == 0x1_0000_0000_0000_0000_0000;
    assert Pow256(11) == 0x100_0000_0000_0000_0000_0000;
    assert Pow256(12) == 0x1_0000_0000_0000_0000_0000_0000;
    assert Pow256(13) == 0x100_0000_0000_0000_0000_0000_0000;
    assert Pow256(14) == 0x1_0000_0000_0000_0000_0000_0000_0000;
    assert Pow256(15) == 0x100_0000_0000_0000_0000_0000_0000_0000;
  }

  /** Rust's `to_le_bytes`: the n-byte little-endian representation of x. */
  function LeBytes(x: nat, n: nat): (r: seq<u8>)
    requires x < Pow256(n)
    ensures |r| == n
    ensures FromLeBytes(r) == x
    decreases n
  {
    if n == 0 then [] else [x % 0x100] + LeBytes(x / 0x100, n - 1)
  }

  /** Rust's `from_le_bytes` for unsigned types. */
  function FromLeBytes(s: seq<u8>): (r: nat)
    ensures r < Pow256(|s|)
  {
    if s == [] then 0 else s[0] + 0x100 * FromLeBytes(s[1..])
  }

  /** Every byte sequence is the little-endian representation of exactly one number. */
  lemma {:induction false} LeBytesOfFromLeBytes(s: seq<u8>)
    ensures LeBytes(FromLeBytes(s), |s|) == s
  {
    if s != [] {
      var v := FromLeBytes(s);
      assert v == s[0] + 0x100 * FromLeBytes(s[1..]);
      assert v % 0x100 == s[0] && v / 0x100 == FromLeBytes(s[1..]);
      LeBytesOfFromLeBytes(s[1..]);
      assert LeBytes(v, |s|) == [s[0]] + s[1..];
    }
  }

  /** Half of 256^n: the number of non-negative values of an n-byte signed type. */
  function SignedLimit(n: nat): (r: nat)
    requires n >= 1
    ensures 2 * r == Pow256(n)
  {
    0x80 * Pow256(n - 1)
  }

  predicate SignedInRange(x: int, n: nat)
    requires n >= 1
  {
    -(SignedLimit(n) as int) <= x < SignedLimit(n)
  }

  /** The `as` cast from an n-byte signed type to the unsigned type of the same width. */
  function AsUnsigned(x: int, n: nat): (u: nat)
    requires n >= 1 && SignedInRange(x, n)
    ensures u < Pow256(n)
    ensures AsSigned(u, n) == x
  {
    if x >= 0 then x else x + Pow256(n)
  }

  /** The `as` cast from an n-byte unsigned type to the signed type of the same width. */
  function AsSigned(u: nat, n: nat): (x: int)
    requires n >= 1 && u < Pow256(n)
    ensures SignedInRange(x, n)
  {
    if u < SignedLimit(n) then u else u - Pow256(n)
  }

  /** Casting to signed and back is the identity: the two casts are inverse bijections. */
  lemma AsUnsignedOfAsSigned(u: nat, n: nat)
    requires n >= 1 && u < Pow256(n)
    ensures AsUnsigned(AsSigned(u, n), n) == u
  {
  }
}

/** Fixed-width arithmetic shared by the other modules: 32-bit wrap-around, the
    signed reading of a 32-bit difference, and powers of two. */
module Words {
  const TWO31: int := 0x8000_0000
  const TWO32: int := 0x1_0000_0000

  type byte = b: int | 0 <= b < 256
  type uint16 = w: int | 0 <= w < 0x1_0000
  type uint32 = x: int | 0 <= x < TWO32

  function Min(a: int, b: int): (m: int) {
    if a < b then a else b
  }

  function Max(a: int, b: int): (m: int) {
    if a < b then b else a
  }

  /** A flag as the number it counts for. */
  function One(b: bool): (r: nat) {
    if b then 1 else 0
  }

  /** The value an integer has after being stored in 32 unsigned bits. */
  function U32(x: int): (r: uint32) {
    x % TWO32
  }

  /** `(int)x` for a 32-bit x. */
  function S32(x: int): (r: int)
    ensures -TWO31 <= r < TWO31
  {
    var u := x % TWO32;
    if u < TWO31 then u else u - TWO32
  }

  /** Serial-number comparison: the signed 32-bit difference of two wrapped
      positions is their true distance, as long as that fits in 31 bits. */
  lemma SignedDistance(a: int, b: int)
    requires -TWO31 <= a - b < TWO31
    ensures S32(U32(a) - U32(b)) == a - b
    ensures S32(a - b) == a - b
    ensures a >= b ==> U32(U32(a) - U32(b)) == a - b
  {
    ModDifference(a, b, TWO32);
  }

  /** Wrapping a summand first makes no difference. */
  lemma WrapAdd(a: int, d: int)
    ensures U32(U32(a) + d) == U32(a + d)
  {
    var q := a / TWO32;
    assert a + d == (U32(a) + d) + TWO32 * q;
    ModShift(U32(a) + d, q, TWO32);
  }

  lemma WrapSub(a: int, b: int)
    ensures U32(U32(a) - U32(b)) == U32(a - b)
  {
    ModDifference(a, b, TWO32);
  }

  /** The signed reading of a wrapped value that is small is the value itself. */
  lemma SignedSmall(x: int, d: int)
    requires U32(x) == U32(d) && -TWO31 <= d < TWO31
    ensures S32(x) == d
  {
    if d < 0 {
      ModUnique(d, -1, d + TWO32, TWO32);
    }
  }

  /** A wrapped offset `u` compares with `x` as the true offset `a` does, when the two
      are less than 2^31 apart. */
  lemma OffsetDistance(u: uint32, a: int, x: nat)
    requires u == U32(a) && -TWO31 <= a - x < TWO31 && a < TWO32
    ensures S32(u - x) == a - x && U32(u - (a - x)) == U32(x) && (a >= 0 ==> u == a)
  {
    assert S32(u - x) == a - x by {
      WrapAdd(a, -(x as int));
      SignedSmall(u - x, a - x);
    }
    assert U32(u - (a - x)) == U32(x) by { WrapAdd(a, -(a - x)); }
  }

  lemma ModDifference(a: int, b: int, m: int)
    requires m > 0
    ensures (a % m - b % m) % m == (a - b) % m
  {
    var q := a / m - b / m;
    assert a - b == (a % m - b % m) + m * q;
    ModShift(a % m - b % m, q, m);
  }

  /** Adding a multiple of the modulus changes nothing. */
  lemma ModShift(x: int, q: int, m: int)
    requires m > 0
    ensures (x + m * q) % m == x % m
  {
    var lhs, y := x + m * q, x % m;
    assert lhs == m * (x / m + q) + y;
    ModUnique(lhs, x / m + q, y, m);
  }

  /** Quotient and remainder are unique. */
  lemma ModUnique(x: int, q: int, r: int, m: int)
    requires m > 0 && 0 <= r < m && x == m * q + r
    ensures x % m == r && x / m == q
  {
    var d := x / m - q;
    assert m * d == r - x % m;
    assert d >= 1 ==> m * d >= m;
    assert d <= -1 ==> m * d <= -m;
  }

  function Pow2(e: nat): (r: nat)
    ensures r >= 1
  {
    if e == 0 then 1 else 2 * Pow2(e - 1)
  }

  predicate IsPow2(n: nat) {
    exists e: nat :: e <= n && n == Pow2(e)
  }

  /** Number of significant bits. */
  function Msb(n: nat): (b: nat)
    ensures n < Pow2(b) && (n > 0 ==> b > 0 && Pow2(b - 1) <= n)
  {
    if n == 0 then 0 else Msb(n / 2) + 1
  }

  lemma {:induction false} Pow2Add(a: nat, b: nat)
    ensures Pow2(a + b) == Pow2(a) * Pow2(b)
  {
    if a == 0 {
    } else {
      Pow2Add(a - 1, b);
      assert Pow2(a + b) == 2 * Pow2((a - 1) + b);
    }
  }

  lemma {:induction false} Pow2Exceeds(e: nat)
    ensures e < Pow2(e)
  {
    if e > 0 { Pow2Exceeds(e - 1); }
  }

  lemma {:induction false} Pow2Monotone(a: nat, b: nat)
    ensures a <= b ==> Pow2(a) <= Pow2(b)
    ensures a < b ==> 2 * Pow2(a) <= Pow2(b)
    decreases b
  {
    if a < b { Pow2Monotone(a, b - 1); }
  }

  /** A power of two no larger than another divides it. */
  lemma Pow2Divides(a: nat, b: nat)
    requires a <= b
    ensures Pow2(b) % Pow2(a) == 0
  {
    Pow2Add(a, b - a);
    ModUnique(Pow2(b), Pow2(b - a), 0, Pow2(a));
  }

  lemma Pow2Values()
    ensures Pow2(14) == 0x4000 && Pow2(16) == 0x1_0000 && Pow2(30) == 0x4000_0000
  {
    assert Pow2(4) == 16;
    Pow2Add(4, 4);
    Pow2Add(8, 4);
    Pow2Add(12, 2);
    Pow2Add(8, 8);
    Pow2Add(16, 14);
  }

  lemma DoubledPow2(n: nat)
    requires IsPow2(n)
    ensures IsPow2(2 * n)
  {
    var e: nat :| e <= n && n == Pow2(e);
    Pow2Exceeds(e + 1);
    assert 2 * n == Pow2(e + 1);
  }

  /** Reducing by a doubled modulus keeps the old remainder or adds one modulus. */
  lemma ModDoubled(k: nat, m: nat)
    requires m > 0
    ensures k % (2 * m) == k % m || k % (2 * m) == k % m + m
  {
    var q, r := k / (2 * m), k % (2 * m);
    assert k == (2 * m) * q + r;
    assert (2 * m) * q == m * (2 * q);
    if r < m {
      ModUnique(k, 2 * q, r, m);
    } else {
      assert m * (2 * q + 1) == m * (2 * q) + m;
      ModUnique(k, 2 * q + 1, r - m, m);
    }
  }
}

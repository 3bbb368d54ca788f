/**
 * Unsigned machine arithmetic shared by the containers, the cache and the
 * hash: powers of two, the bitwise AND of `size_t` values, and the
 * wrap-around of `size_t` addition and subtraction.
 */
module Bits {

  /** An octet, as `unsigned char` holds it. */
  type byte = x: int | 0 <= x < 256

  /** 2^64: `size_t` values are the naturals below this. */
  const SizeModulus: nat := 0x1_0000_0000_0000_0000

  function Pow2(k: nat): (r: nat)
    ensures r >= 1
  {
    if k == 0 then 1 else 2 * Pow2(k - 1)
  }

  /** `n` is a power of two. */
  predicate IsPow2(n: nat)
  {
    n == 1 || (n >= 2 && n % 2 == 0 && IsPow2(n / 2))
  }

  /** The exponent of a power of two. */
  function Log2(n: nat): nat
  {
    if n <= 1 then 0 else 1 + Log2(n / 2)
  }

  lemma {:induction false} Pow2IsPow2(k: nat)
    ensures IsPow2(Pow2(k)) && Log2(Pow2(k)) == k
  {
    if k > 0 {
      Pow2IsPow2(k - 1);
      assert Pow2(k) / 2 == Pow2(k - 1);
    }
  }

  lemma {:induction false} IsPow2HasLog(n: nat)
    requires IsPow2(n)
    ensures n == Pow2(Log2(n))
  {
    if n > 1 {
      IsPow2HasLog(n / 2);
    }
  }

  /** `a & b` on unsigned values, bit by bit from the least significant. */
  function BitAnd(a: nat, b: nat): nat
  {
    if a == 0 || b == 0 then 0 else 2 * BitAnd(a / 2, b / 2) + (a % 2) * (b % 2)
  }

  lemma MulAtLeast(d: int, m: int)
    requires d >= 1 && m > 0
    ensures d * m >= m
  {
    assert d * m == m + (d - 1) * m;
  }

  /** Division with remainder has one answer. */
  lemma ModUnique(h: int, m: int, q: int, r: int)
    requires m > 0 && h == q * m + r && 0 <= r < m
    ensures h % m == r
  {
    var q', r' := h / m, h % m;
    assert h == q' * m + r';
    var d := q - q';
    assert d * m == r' - r by {
      assert q * m - q' * m == (q - q') * m;
    }
    if d >= 1 {
      MulAtLeast(d, m);
    } else if d <= -1 {
      MulAtLeast(-d, m);
    }
  }

  lemma HalfMod(h: nat, p: nat)
    requires p >= 1
    ensures 2 * ((h / 2) % p) + h % 2 == h % (2 * p)
  {
    var q := (h / 2) / p;
    var r := (h / 2) % p;
    assert h / 2 == q * p + r;
    assert h == q * (2 * p) + (2 * r + h % 2);
    ModUnique(h, 2 * p, q, 2 * r + h % 2);
  }

  /** Masking with `2^k - 1` keeps the `k` low bits: it is the remainder by `2^k`. */
  lemma {:induction false} MaskIsMod(h: nat, k: nat)
    ensures BitAnd(h, Pow2(k) - 1) == h % Pow2(k)
  {
    if k > 0 && h > 0 {
      var m := Pow2(k) - 1;
      var p := Pow2(k - 1);
      assert m == 2 * (p - 1) + 1;
      assert m / 2 == p - 1 && m % 2 == 1;
      assert BitAnd(h, m) == 2 * BitAnd(h / 2, p - 1) + h % 2;
      MaskIsMod(h / 2, k - 1);
      HalfMod(h, p);
      assert Pow2(k) == 2 * p;
    } else if k == 0 {
      assert Pow2(k) == 1;
    } else {
      assert BitAnd(h, Pow2(k) - 1) == 0;
    }
  }

  /** Doubling moves a power of two one exponent up. */
  lemma {:induction false} Pow2Monotone(j: nat, k: nat)
    requires j <= k
    ensures Pow2(j) <= Pow2(k)
    decreases k - j
  {
    if j < k {
      Pow2Monotone(j, k - 1);
    }
  }

  /** `a + b` on `size_t`: wraps modulo 2^64. */
  function SizeAdd(a: nat, b: nat): (r: nat)
    ensures r < SizeModulus
  {
    (a + b) % SizeModulus
  }

  /** `a - b` on `size_t`: wraps modulo 2^64. */
  function SizeSub(a: nat, b: nat): (r: nat)
    ensures r < SizeModulus
  {
    (a - b) % SizeModulus
  }

  /** Below the modulus, `size_t` subtraction does not wrap. */
  lemma SizeSubExact(a: nat, b: nat)
    requires b <= a < SizeModulus
    ensures SizeSub(a, b) == a - b
  {
  }

  /** Below the modulus, `size_t` addition does not wrap. */
  lemma SizeAddExact(a: nat, b: nat)
    requires a + b < SizeModulus
    ensures SizeAdd(a, b) == a + b
  {
  }
}

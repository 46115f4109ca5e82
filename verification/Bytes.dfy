/** Bytes, powers of two and the digest type shared by the other modules. */
module Bytes {

  /** A machine byte; arithmetic on it is written out over `int`. */
  type byte = b: int | 0 <= b < 256

  type bytes = seq<byte>

  /** The output of a 256-bit hash. */
  type Digest = d: bytes | |d| == 32 witness seq(32, i => 0)

  /** A 256-bit hash such as SHA-256, uninterpreted. */
  type Hash = bytes -> Digest

  datatype Option<+T> = None | Some(value: T)

  function Min(a: int, b: int): int {
    if a < b then a else b
  }

  function Pow2(n: nat): (r: nat)
    ensures r >= 1
  {
    if n == 0 then 1 else 2 * Pow2(n - 1)
  }

  lemma {:induction false} Pow2Add(a: nat, b: nat)
    ensures Pow2(a + b) == Pow2(a) * Pow2(b)
  {
    if a > 0 {
      Pow2Add(a - 1, b);
      assert Pow2(a + b) == 2 * Pow2(a - 1 + b);
      assert Pow2(a) * Pow2(b) == 2 * (Pow2(a - 1) * Pow2(b));
    }
  }

  lemma {:induction false} Pow2Monotone(a: nat, b: nat)
    requires a <= b
    ensures Pow2(a) <= Pow2(b)
  {
    if a < b {
      Pow2Monotone(a, b - 1);
    }
  }

  lemma Pow2Eight(n: nat)
    ensures Pow2(n + 8) == 256 * Pow2(n)
  {
    Pow2Add(8, n);
    assert Pow2(4) == 16;
    Pow2Add(4, 4);
  }

  lemma MulAtLeast(k: int, d: int)
    requires k >= 1 && d > 0
    ensures k * d >= d
  {
    assert (k - 1) * d >= 0;
  }

  /** Division with remainder is unique. */
  lemma QuotientUnique(q: int, r: int, p: int, s: int, d: int)
    requires 0 <= r < d && 0 <= s < d && q * d + r == p * d + s
    ensures q == p && r == s
  {
    assert (q - p) * d == s - r && (p - q) * d == r - s;
    if q > p {
      MulAtLeast(q - p, d);
    } else if p > q {
      MulAtLeast(p - q, d);
    }
  }

  lemma DivModOf(q: int, r: int, d: int)
    requires 0 <= r < d
    ensures (q * d + r) / d == q && (q * d + r) % d == r
  {
    var x := q * d + r;
    assert x == (x / d) * d + x % d;
    QuotientUnique(x / d, x % d, q, r, d);
  }

  lemma Associate(a: bytes, b: bytes, c: bytes)
    ensures a + b + c == a + (b + c)
  {
  }
}

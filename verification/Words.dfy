/** Bytes and 64-bit words. */
module Words {

  type Byte = b: int | 0 <= b < 256

  const TWO63: int := 0x8000_0000_0000_0000
  const TWO64: int := 0x1_0000_0000_0000_0000

  predicate IsInt64(v: int) {
    -TWO63 <= v < TWO63
  }

  /** Conversion to an unsigned and to a signed 64-bit word. */
  function U64(x: int): nat {
    x % TWO64
  }

  function I64(x: int): int {
    if x % TWO64 < TWO63 then x % TWO64 else x % TWO64 - TWO64
  }

  lemma FitsU64(x: int)
    requires 0 <= x < TWO64
    ensures U64(x) == x
  {
  }

  lemma FitsI64(x: int)
    requires -TWO63 <= x < TWO63
    ensures I64(x) == x
  {
  }

  /** Mixed arithmetic is unsigned; it gives the signed difference when that fits. */
  lemma SignedDifference(x: int, y: int)
    requires -TWO63 <= x - y < TWO63
    ensures I64(U64(x) - y) == x - y
  {
    var q := x / TWO64;
    assert U64(x) - y == (x - y) - TWO64 * q;
    assert ((x - y) - TWO64 * q) % TWO64 == (x - y) % TWO64;
  }

  lemma UnsignedSum(x: int, y: int)
    requires 0 <= x + y < TWO64
    ensures U64(x + U64(y)) == x + y
  {
    var q := y / TWO64;
    assert x + U64(y) == (x + y) - TWO64 * q;
  }

  /** Quotient and remainder are determined by the sum they make. */
  lemma Remainder(x: int, m: int, q: int, r: int)
    requires m > 0 && x == m * q + r && 0 <= r < m
    ensures x / m == q && x % m == r
  {
    var k := q - x / m;
    assert m * k == x % m - r;
    Multiple(m, k);
  }

  lemma Multiple(m: int, k: int)
    requires m > 0
    ensures (k >= 1 ==> m * k >= m) && (k <= -1 ==> m * k <= -m)
  {
  }

  lemma QuotientBound(x: nat, p: nat, m: nat)
    requires p > 0 && x < p * m
    ensures x / p < m
  {
    var k := x / p - m;
    assert p * k == x - x % p - p * m;
    assert k >= 0 ==> p * k >= 0;
  }

  function Pow256(n: nat): (p: nat)
    ensures p > 0
  {
    if n == 0 then 1 else 256 * Pow256(n - 1)
  }
}

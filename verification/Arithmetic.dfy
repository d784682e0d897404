/** Division, powers of two and index arithmetic used throughout. */
module Arithmetic {

  lemma ProductAtLeast(k: int, d: int)
    requires k >= 1 && d >= 0
    ensures k * d >= d
  {
  }

  /** Quotient and remainder are determined by x == q * d + r. */
  lemma DivModUnique(x: int, q: int, r: int, d: int)
    requires 0 <= r < d && x == q * d + r
    ensures x / d == q && x % d == r
  {
    var k := x / d - q;
    if k > 0 { ProductAtLeast(k, d); }
    if k < 0 { ProductAtLeast(-k, d); }
    assert k * d == r - x % d;
  }

  lemma DivDiv(a: nat, b: nat, c: nat)
    requires b > 0 && c > 0
    ensures b * c > 0 && a / b / c == a / (b * c)
  {
    var (d, s) := QuotientRemainder(a, b);
    var (q, r) := QuotientRemainder(d, c);
    DivDivParts(q, r, s, b, c);
  }

  lemma DivDivParts(q: nat, r: nat, s: nat, b: nat, c: nat)
    requires r < c && s < b
    ensures b * c > 0 && ((q * c + r) * b + s) / (b * c) == q
  {
    Distribute(q * c, r, b);
    Regroup(q, c, b);
    SmallerProduct(r, c, b);
    ProductMonotone(0, r, b);
    DivModUnique((q * c + r) * b + s, q, r * b + s, b * c);
  }

  function QuotientRemainder(a: nat, m: nat): (r: (nat, nat))
    requires m > 0
    ensures a == r.0 * m + r.1 && r.1 == a % m
  {
    (a / m, a % m)
  }

  lemma ProductMonotone(a: nat, b: nat, p: nat)
    requires a <= b
    ensures a * p <= b * p
  {
  }

  lemma SmallerFactor(a: nat, b: nat, p: nat)
    requires a * p < b * p
    ensures a < b
  {
    if a >= b { ProductMonotone(b, a, p); }
  }

  lemma Factor(a: int, b: int, p: int)
    ensures a * p - b * p == (a - b) * p
  {
  }

  lemma SmallerProduct(a: nat, b: nat, p: nat)
    requires a < b && p > 0
    ensures a * p + p <= b * p
  {
    ProductMonotone(a + 1, b, p);
    Factor(a + 1, a, p);
  }

  lemma SmallModulo(a: int, m: int)
    requires 0 <= a < m
    ensures a % m == a
  {
  }

  lemma DoubleFactor(a: nat, p: nat)
    ensures (2 * a) * p == a * (2 * p)
  {
  }

  /** The byte with the value n. */
  function ByteOf(n: nat): (b: bv8)
    requires n < 256
    ensures b as int == n
  {
    if n == 0 then 0 else NextByte(ByteOf(n - 1))
  }

  function NextByte(b: bv8): (c: bv8)
    requires b as int < 255
    ensures c as int == b as int + 1
  {
    b + 1
  }

  lemma Regroup(a: int, b: int, c: int)
    ensures (a * b) * c == a * (c * b)
  {
  }

  lemma Distribute(a: int, b: int, p: int)
    ensures (a + b) * p == a * p + b * p
  {
  }
}

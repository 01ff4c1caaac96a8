/** Facts about remainders that the allocators and the hash table rely on. */
module Arith {

  lemma MultipleMod(k: int, u: nat)
    requires u > 0
    ensures (k * u) % u == 0
  {
    var m := k * u;
    var d := k - m / u;
    assert d * u == m % u by { assert k * u - u * (m / u) == d * u; }
  }

  lemma AlignedSum(a: int, b: int, u: nat)
    requires u > 0 && a % u == 0 && b % u == 0
    ensures (a - b) % u == 0 && (a + b) % u == 0
  {
    var p, q := a / u, b / u;
    assert a == p * u && b == q * u;
    assert a - b == (p - q) * u && a + b == (p + q) * u;
    MultipleMod(p - q, u);
    MultipleMod(p + q, u);
  }

  lemma FloorAligned(d: int, u: nat)
    requires u > 0
    ensures (d - d % u) % u == 0
  {
    assert d - d % u == (d / u) * u;
    MultipleMod(d / u, u);
  }

  lemma SmallMultiple(x: int, u: int)
    requires u > 0 && -u < x < u && x % u == 0
    ensures x == 0
  {
  }

  lemma SameMultiple(a: int, b: int, u: nat)
    requires u > 0 && a % u == 0 && b % u == 0 && a < b + u && b < a + u
    ensures a == b
  {
    AlignedSum(a, b, u);
    SmallMultiple(a - b, u);
  }

  /** Division with remainder is unique. */
  lemma ModUnique(x: int, k: int, r: nat, u: nat)
    requires r < u && x == k * u + r
    ensures x % u == r
  {
    FloorAligned(x, u);
    MultipleMod(k, u);
    AlignedSum(k * u, x - x % u, u);
    SmallMultiple(x % u - r, u);
  }

  lemma DivUnique(x: int, k: int, r: nat, u: nat)
    requires r < u && x == k * u + r
    ensures x / u == k && x % u == r
  {
    ModUnique(x, k, r, u);
    var d := x / u;
    assert (d - k) * u == 0;
  }
}

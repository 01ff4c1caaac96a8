/** The bit-scan helper of kernel/src/arb/arb.c and the option type shared by the modules. */
module Bits {

  datatype Option<+T> = None | Some(value: T)

  const TWO32: nat := 0x1_0000_0000

  /** 2^n. */
  function Pow2(n: nat): (p: nat)
    ensures p >= 1
  {
    if n == 0 then 1 else 2 * Pow2(n - 1)
  }

  lemma {:induction false} Pow2Monotone(m: nat, n: nat)
    requires m <= n
    ensures Pow2(m) <= Pow2(n)
  {
    if m < n {
      Pow2Monotone(m, n - 1);
    }
  }

  /** The largest i at or above `from` with 2^i <= v. */
  function Log2(v: nat, from: nat): (i: nat)
    requires Pow2(from) <= v
    ensures Pow2(i) <= v < Pow2(i + 1)
    decreases v - Pow2(from)
  {
    if v < Pow2(from + 1) then from else Log2(v, from + 1)
  }

  /** The index of the highest set bit, or -1 for zero: what the `bsr` instruction leaves in `highbit`. */
  function HighBit(v: nat): (i: int)
    ensures i >= -1
    ensures i == -1 <==> v == 0
    ensures v > 0 ==> Pow2(i) <= v < Pow2(i + 1)
  {
    if v == 0 then -1 else Log2(v, 0)
  }

  /** A larger value has no lower highest bit. */
  lemma HighBitMonotone(a: nat, b: nat)
    ensures a <= b ==> HighBit(a) <= HighBit(b)
  {
    var i, j := HighBit(a), HighBit(b);
    if j >= 0 && i > j {
      Pow2Monotone(j + 1, i);
    }
  }
}

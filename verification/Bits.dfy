/** Bits of numbers, by division and remainder. */
module Bits {

  function Pow2(n: nat): (p: nat)
    ensures p >= 1
  {
    if n == 0 then 1 else 2 * Pow2(n - 1)
  }

  /** Bit `k` of a number. */
  function Bit(w: nat, k: nat): bool {
    if k == 0 then w % 2 == 1 else Bit(w / 2, k - 1)
  }

  /** The lowest `n` bits of `a | b`. */
  function OrBits(a: nat, b: nat, n: nat): (r: nat)
    ensures r < Pow2(n)
  {
    if n == 0 then 0 else 2 * OrBits(a / 2, b / 2, n - 1) + if a % 2 == 1 || b % 2 == 1 then 1 else 0
  }

  /** A bit of the disjunction is set exactly when it is in one of the two. */
  lemma {:induction false} OrHasBit(a: nat, b: nat, n: nat, k: nat)
    requires k < n
    ensures Bit(OrBits(a, b, n), k) <==> Bit(a, k) || Bit(b, k)
  {
    var r := OrBits(a / 2, b / 2, n - 1);
    assert OrBits(a, b, n) / 2 == r;
    if k > 0 {
      OrHasBit(a / 2, b / 2, n - 1, k - 1);
    }
  }

  /** Nothing to add changes nothing. */
  lemma {:induction false} OrNothing(a: nat, n: nat)
    requires a < Pow2(n)
    ensures OrBits(a, 0, n) == a
  {
    if n > 0 {
      OrNothing(a / 2, n - 1);
    }
  }

  /** The bits of a number put together from a low and a high part are those of the parts. */
  lemma {:induction false} LowBit(low: nat, high: nat, n: nat, k: nat)
    requires k < n
    ensures Bit(low + Pow2(n) * high, k) == Bit(low, k)
  {
    Halve(low, high, n);
    if k > 0 {
      LowBit(low / 2, high, n - 1, k - 1);
    }
  }

  lemma {:induction false} HighBit(low: nat, high: nat, n: nat, k: nat)
    requires low < Pow2(n)
    ensures Bit(low + Pow2(n) * high, n + k) == Bit(high, k)
  {
    if n > 0 {
      Halve(low, high, n);
      HighBit(low / 2, high, n - 1, k);
    }
  }

  lemma Halve(low: nat, high: nat, n: nat)
    requires n > 0
    ensures (low + Pow2(n) * high) / 2 == low / 2 + Pow2(n - 1) * high
    ensures (low + Pow2(n) * high) % 2 == low % 2
  {
    var y := Pow2(n - 1) * high;
    assert Pow2(n) * high == 2 * y;
  }
}

/** The machine's integers: 32-bit words and division that truncates towards zero. */
module Integers {

  const WORD_LIMIT := 0x1_0000_0000

  function Min(a: int, b: int): int { if a < b then a else b }
  function Max(a: int, b: int): int { if a > b then a else b }

  function Quotient(a: int, b: nat): int
    requires b > 0
  {
    if a < 0 then -(-a / b) else a / b
  }

  function Remainder(a: int, b: nat): int
    requires b > 0
  {
    a - b * Quotient(a, b)
  }

  /** The quotient is the exact one without its fraction, and the remainder has the sign of the dividend. */
  lemma TruncatesTowardsZero(a: int, b: int)
    requires b > 0
    ensures a == b * Quotient(a, b) + Remainder(a, b)
    ensures if a >= 0 then 0 <= Remainder(a, b) < b && Quotient(a, b) >= 0
            else -b < Remainder(a, b) <= 0 && Quotient(a, b) <= 0
  {
    var x := if a < 0 then -a else a;
    var q := x / b;
    assert x == b * q + x % b;
    assert b * -q == -(b * q);
  }
}

/** Bit operations on natural numbers, defined bit by bit from the lowest. */
module Bits {

  type Byte = x: int | 0 <= x < 256

  function And(x: nat, y: nat): (r: nat)
    ensures r <= x
  {
    if x == 0 then 0 else 2 * And(x / 2, y / 2) + if x % 2 == 1 && y % 2 == 1 then 1 else 0
  }

  function Or(x: nat, y: nat): nat { x + y - And(x, y) }

  function Pow2(n: nat): (p: nat)
    ensures 0 < p
  {
    if n == 0 then 1 else 2 * Pow2(n - 1)
  }

  function ShiftLeft(x: nat, s: nat): nat { x * Pow2(s) }

  function ShiftRight(x: nat, s: nat): (r: nat)
    ensures r <= x
  {
    if s == 0 then x else ShiftRight(x / 2, s - 1)
  }

  lemma {:induction false} AndZero(x: nat)
    ensures And(x, 0) == 0
  {
    if x != 0 {
      AndZero(x / 2);
    }
  }

  /** Numbers that share no bit: a multiple of 16 and a number below 16. */
  lemma OrOfHalves(u: nat, v: nat)
    requires v < 16
    ensures Or(16 * u, v) == 16 * u + v
  {
    hide And;
    AndOfDouble(8 * u, v);
    AndOfDouble(4 * u, v / 2);
    AndOfDouble(2 * u, v / 2 / 2);
    AndOfDouble(u, v / 2 / 2 / 2);
    assert v / 2 / 2 / 2 / 2 == 0;
    AndZero(u);
  }

  lemma AndOfDouble(u: nat, v: nat)
    ensures And(2 * u, v) == 2 * And(u, v / 2)
  {
  }
}

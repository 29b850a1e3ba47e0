/** Bitwise `^` and `|` on non-negative integers, defined bit by bit, with the
    two facts the constant-time comparison relies on. Java applies these operators
    to `char` codes widened to `int`, which are never negative. */
module Bits {

  function Xor(x: nat, y: nat): nat
    decreases x + y
  {
    if x == 0 && y == 0 then 0
    else 2 * Xor(x / 2, y / 2) + (x % 2 + y % 2) % 2
  }

  function Or(x: nat, y: nat): nat
    decreases x + y
  {
    if x == 0 && y == 0 then 0
    else 2 * Or(x / 2, y / 2) + (if x % 2 == 1 || y % 2 == 1 then 1 else 0)
  }

  /** `x ^ y` is zero exactly when the operands are equal. */
  lemma {:induction false} XorZeroIffEqual(x: nat, y: nat)
    ensures Xor(x, y) == 0 <==> x == y
    decreases x + y
  {
    if x == 0 && y == 0 {
    } else {
      XorZeroIffEqual(x / 2, y / 2);
      if x == y {
        assert (x % 2 + y % 2) % 2 == 0;
      } else if x % 2 == y % 2 {
        assert x / 2 != y / 2;
      }
    }
  }

  /** `x | y` is zero exactly when both operands are zero. */
  lemma {:induction false} OrZeroIffBothZero(x: nat, y: nat)
    ensures Or(x, y) == 0 <==> x == 0 && y == 0
    decreases x + y
  {
    if x == 0 && y == 0 {
    } else {
      OrZeroIffBothZero(x / 2, y / 2);
    }
  }
}

/** Byte values and the integer helpers the C++ baker relies on:
    C's truncating division, ceiling division of non-negative values, and
    the bitwise OR that the debug grid applies to an alpha byte. */
module Bytes {

  /** An `unsigned char`. */
  newtype byte = x: int | 0 <= x < 256

  /** C/C++ integer division, which truncates toward zero
      (Dafny's own `/` is Euclidean). */
  function CDiv(a: int, d: int): (q: int)
    requires d > 0
    ensures a >= 0 ==> q == a / d
    ensures a < 0 ==> q == -((-a) / d)
    ensures q * d <= a || a < 0
  {
    if a >= 0 then a / d else -((-a) / d)
  }

  /** `(a + d - 1) / d` on non-negative `a`: the rounded-up quotient. */
  function CeilDiv(a: nat, d: int): (q: nat)
    requires d > 0
    ensures q * d >= a
    ensures q == 0 || (q - 1) * d < a
  {
    (a + d - 1) / d
  }

  function Pow2(n: nat): (r: nat)
    ensures r >= 1
  {
    if n == 0 then 1 else 2 * Pow2(n - 1)
  }

  /** Bitwise OR of two non-negative integers, bit by bit from the lowest. */
  function Or(a: nat, b: nat): nat
    decreases a + b
  {
    if a == 0 then b
    else if b == 0 then a
    else 2 * Or(a / 2, b / 2) + (if a % 2 == 1 || b % 2 == 1 then 1 else 0)
  }

  /** OR never clears a bit, so it never lowers either operand. */
  lemma {:induction false} OrAtLeast(a: nat, b: nat)
    ensures Or(a, b) >= a && Or(a, b) >= b
    decreases a + b
  {
    if a != 0 && b != 0 {
      OrAtLeast(a / 2, b / 2);
    }
  }

  /** OR of two values below 2^n stays below 2^n: no bit above the operands' width appears. */
  lemma {:induction false} OrBelow(a: nat, b: nat, n: nat)
    requires a < Pow2(n) && b < Pow2(n)
    ensures Or(a, b) < Pow2(n)
    decreases a + b
  {
    if a != 0 && b != 0 {
      assert n > 0;
      OrBelow(a / 2, b / 2, n - 1);
    }
  }

  /** The OR of two bytes is a byte. */
  lemma OrOfBytes(a: nat, b: nat)
    requires a < 256 && b < 256
    ensures a <= Or(a, b) < 256 && b <= Or(a, b)
  {
    assert Pow2(8) == 256;
    OrBelow(a, b, 8);
    OrAtLeast(a, b);
  }
}

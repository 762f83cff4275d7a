/** The bitwise operators the GB7 decoder applies to bytes, `&` and `>>`,
    defined bit by bit on non-negative integers, with their arithmetic
    meaning: the low `k` bits and the bits above them split a value as
    remainder and quotient by `2^k`. */
module Bits {
  /** `2^k`. */
  function Pow2(k: nat): (p: nat)
    ensures p >= 1
  {
    if k == 0 then 1 else 2 * Pow2(k - 1)
  }

  /** `a & b` on non-negative integers, from the least significant bit up. */
  function BitAnd(a: nat, b: nat): nat
    decreases a
  {
    if a == 0 || b == 0 then 0
    else 2 * BitAnd(a / 2, b / 2) + (if a % 2 == 1 && b % 2 == 1 then 1 else 0)
  }

  /** `a >> k` on a non-negative integer: `k` halvings. */
  function ShiftRight(a: nat, k: nat): nat {
    if k == 0 then a else ShiftRight(a / 2, k - 1)
  }

  /** `a & (2^k - 1)` and `a >> k` split `a`: the masked part is below `2^k`
      and the shifted part counts the multiples of `2^k`. */
  lemma {:induction false} SplitAt(a: nat, k: nat)
    ensures BitAnd(a, Pow2(k) - 1) < Pow2(k)
    ensures BitAnd(a, Pow2(k) - 1) + Pow2(k) * ShiftRight(a, k) == a
  {
    if k == 0 {
      assert Pow2(k) == 1 && BitAnd(a, 0) == 0;
    } else {
      var p := Pow2(k - 1);
      var low, high := BitAnd(a / 2, p - 1), ShiftRight(a / 2, k - 1);
      SplitAt(a / 2, k - 1);
      assert Pow2(k) == 2 * p && ShiftRight(a, k) == high;
      assert BitAnd(a, 2 * p - 1) == 2 * low + a % 2 by {
        if a > 0 {
          BitAndOdd(a, 2 * p - 1);
        }
      }
      DoubleMul(p, high);
    }
  }

  lemma DoubleMul(p: nat, h: nat)
    ensures (2 * p) * h == 2 * (p * h)
  {
  }

  /** Masking with an odd value keeps the lowest bit. */
  lemma BitAndOdd(a: nat, m: nat)
    requires m % 2 == 1
    ensures BitAnd(a, m) == 2 * BitAnd(a / 2, m / 2) + a % 2
  {
  }
}

/** Shifts and bitwise or of non-negative integers. */
module Bits {

  function Pow2(k: nat): (r: nat)
    ensures r > 0
  {
    if k == 0 then 1 else 2 * Pow2(k - 1)
  }

  function ShiftLeft(a: nat, k: nat): nat {
    a * Pow2(k)
  }

  /** Bit by bit, from the lowest: set where either is. */
  function Or(a: nat, b: nat): nat
    decreases a + b
  {
    if a == 0 then b
    else if b == 0 then a
    else (if a % 2 == 1 || b % 2 == 1 then 1 else 0) + 2 * Or(a / 2, b / 2)
  }

  /** Or-ing bits in above those that are there is an addition. */
  lemma {:induction false} OrAdds(a: nat, bits: nat, k: nat)
    requires a < Pow2(k)
    ensures Or(a, ShiftLeft(bits, k)) == a + bits * Pow2(k)
    decreases k
  {
    if k > 0 && a > 0 && bits > 0 {
      OrAdds(a / 2, bits, k - 1);
      DoubleShift(bits, k - 1);
    }
  }

  lemma DoubleShift(bits: nat, k: nat)
    requires bits > 0
    ensures ShiftLeft(bits, k + 1) == 2 * ShiftLeft(bits, k) > 0
  {
    assert bits * (2 * Pow2(k)) == 2 * (bits * Pow2(k));
    Positive(bits, Pow2(k));
  }

  lemma {:induction false} Positive(a: nat, b: nat)
    requires a > 0 && b > 0
    ensures a * b > 0
  {
    if a > 1 { Positive(a - 1, b); }
  }

  /** Seven more bits fit below the next shift. */
  lemma SevenMore(a: nat, bits: nat, k: nat)
    requires a < Pow2(k) && bits < 128
    ensures Pow2(k + 7) == 128 * Pow2(k)
    ensures a + bits * Pow2(k) < Pow2(k + 7)
  {
    assert Pow2(k + 7) == 2 * Pow2(k + 6) == 4 * Pow2(k + 5) == 8 * Pow2(k + 4) == 16 * Pow2(k + 3);
    assert Pow2(k + 3) == 2 * Pow2(k + 2) == 4 * Pow2(k + 1) == 8 * Pow2(k);
    Below(bits, 127, Pow2(k));
  }

  lemma {:induction false} Below(a: nat, b: nat, n: nat)
    requires a <= b
    ensures a * n <= b * n
    decreases b - a
  {
    if a < b { Below(a, b - 1, n); }
  }

  /** Or-ing seven bits in above those that are there. */
  lemma OrSeven(a: nat, bits: nat, k: nat)
    requires a < Pow2(k) && bits < 128
    ensures Or(a, ShiftLeft(bits, k)) == a + bits * Pow2(k) < Pow2(k + 7) == 128 * Pow2(k)
  {
    hide Or, ShiftLeft, Pow2;
    OrAdds(a, bits, k);
    SevenMore(a, bits, k);
  }
}

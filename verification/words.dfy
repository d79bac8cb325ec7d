/** Machine words: 32 bits, of which single ones are set and cleared. */
module Words {
  const WORD := 0x1_0000_0000

  /** 1 << k */
  function Power(k: nat): (p: nat)
    ensures p > 0
  {
    if k == 0 then 1 else 2 * Power(k - 1)
  }

  /** x | bit, for a single bit. */
  function SetBit(x: nat, bit: nat): nat
    requires bit > 0
  {
    if Has(x, bit) then x else x + bit
  }

  /** x & ~bit, for a single bit. */
  function ClearBit(x: nat, bit: nat): nat
    requires bit > 0
  {
    if Has(x, bit) then x - bit else x
  }

  predicate Has(x: nat, bit: nat)
    requires bit > 0
  {
    x / bit % 2 == 1
  }

  /** A bit below all the bits of a number, set and cleared again. */
  lemma LowerBit(q: nat, bit: nat)
    requires bit > 0
    ensures SetBit(2 * q * bit, bit) == (2 * q + 1) * bit && ClearBit((2 * q + 1) * bit, bit) == 2 * q * bit
  {
    Multiple(2 * q, bit);
    Multiple(2 * q + 1, bit);
    assert (2 * q + 1) * bit == 2 * q * bit + bit;
  }

  lemma Multiple(q: nat, bit: nat)
    requires bit > 0
    ensures q * bit >= 0 && q * bit / bit == q && q * bit % bit == 0
  {
    var x := q * bit;
    var r := x / bit;
    if q > r {
      Apart(q, r, bit);
    }
  }

  lemma Quotient(x: nat, y: nat)
    requires y > 0
    ensures 0 <= x / y && y * (x / y) <= x < y * (x / y) + y
  {}

  lemma ExactQuotient(q: nat, y: nat, x: nat)
    requires y > 0 && x == q * y
    ensures x / y == q
  {
    Multiple(q, y);
  }

  /** Multiples of different factors lie at least a step apart. */
  lemma Apart(a: int, b: int, step: nat)
    requires a > b && step > 0
    ensures a * step >= b * step + step
  {
    NonNegative(a - b - 1, step);
    Difference(a - 1, b, step);
    Difference(a, 1, step);
  }

  lemma NonNegative(x: nat, y: nat)
    ensures x * y >= 0
  {}

  lemma Difference(x: int, y: int, z: int)
    ensures (x - y) * z == x * z - y * z
  {}

  /** x | y */
  function Or(x: nat, y: nat): nat {
    if x == 0 then y
    else if y == 0 then x
    else 2 * Or(x / 2, y / 2) + if x % 2 == 1 || y % 2 == 1 then 1 else 0
  }

  /** Into a field that is clear, or goes its value; what exceeds the field goes into what lies above. */
  lemma {:induction false} OrIntoField(above: nat, exceeding: nat, value: nat, k: nat)
    requires value < Power(k)
    ensures Or(above * Power(k), exceeding * Power(k) + value) == Or(above, exceeding) * Power(k) + value
    decreases k
  {
    if k > 0 {
      var p, half, bit := Power(k - 1), value / 2, value % 2;
      OrIntoField(above, exceeding, half, k - 1);
      Doubled(above, p, Power(k));
      Doubled(exceeding, p, Power(k));
      Doubled(Or(above, exceeding), p, Power(k));
      OrDoubled(above * p, exceeding * p + half, bit);
      assert exceeding * Power(k) + value == 2 * (exceeding * p + half) + bit;
    }
  }

  lemma Doubled(x: nat, p: nat, q: nat)
    requires q == 2 * p
    ensures x * q == 2 * (x * p) && x * p >= 0
  {}

  lemma OrDoubled(x: nat, y: nat, bit: nat)
    requires bit < 2
    ensures Or(2 * x, 2 * y + bit) == 2 * Or(x, y) + bit
  {}
}

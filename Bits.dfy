/** Powers of two, the 2-adic valuation and the bit-level idioms built on them. */
module Bits {
  import opened Arith

  function Pow2(t: nat): (r: nat)
    ensures r >= 1
  {
    if t == 0 then 1 else 2 * Pow2(t - 1)
  }

  /** The exponent of the largest power of 2 dividing m > 0. */
  function Val2(m: int): nat
    requires m > 0
    decreases m
  {
    if m % 2 == 1 then 0 else 1 + Val2(m / 2)
  }

  lemma {:induction false} Val2Divides(m: int)
    requires m > 0
    ensures Divides(Pow2(Val2(m)), m) && !Divides(Pow2(Val2(m) + 1), m)
    decreases m
  {
    if m % 2 == 1 {
      DividesSelf(m);
    } else {
      Val2Divides(m / 2);
      var k := Pow2(Val2(m / 2));
      var q := DividesQuotient(k, m / 2);
      DividesWitness(2 * k, m, q);
      if Divides(2 * (2 * k), m) {
        var q' := DividesQuotient(2 * (2 * k), m);
        DividesWitness(2 * k, m / 2, q');
      }
    }
  }

  /** Python's bitwise `a & ~b` on natural numbers, one bit at a time from the
      lowest: a bit of the result is set when it is set in a and clear in b. */
  function AndNot(a: nat, b: nat): nat
    decreases a
  {
    if a == 0 then 0
    else 2 * AndNot(a / 2, b / 2) + (if a % 2 == 1 && b % 2 == 0 then 1 else 0)
  }

  lemma {:induction false} AndNotSelf(a: nat)
    ensures AndNot(a, a) == 0
    decreases a
  {
    if a > 0 { AndNotSelf(a / 2); }
  }

  /** Subtracting 1 clears the lowest set bit of m and sets every bit below it,
      so `m & ~(m - 1)` keeps exactly that lowest set bit. */
  lemma {:induction false} LowestBit(m: int)
    requires m > 0
    ensures AndNot(m, m - 1) == Pow2(Val2(m))
    decreases m
  {
    if m % 2 == 1 {
      assert (m - 1) / 2 == m / 2;
      AndNotSelf(m / 2);
    } else {
      assert (m - 1) / 2 == m / 2 - 1;
      LowestBit(m / 2);
    }
  }

  /** `m & ~(m - 1)` for m > 0: the largest power of two that divides m. */
  function LowestPowerOfTwo(m: int): (k: nat)
    requires m > 0
    ensures k == Pow2(Val2(m))
    ensures Divides(k, m) && !Divides(2 * k, m)
  {
    LowestBit(m);
    Val2Divides(m);
    AndNot(m, m - 1)
  }

  /** The floor of the base-2 logarithm: `len(bin(k)) - 3`, the bit length of k
      minus one, and, for powers of two, `int(math.log(k, 2))`. */
  function Log2(k: nat): (r: nat)
    requires k >= 1
    ensures Pow2(r) <= k < Pow2(r + 1)
    decreases k
  {
    if k == 1 then 0 else 1 + Log2(k / 2)
  }

  lemma {:induction false} Log2Pow2(t: nat)
    ensures Log2(Pow2(t)) == t
  {
    if t > 0 { Log2Pow2(t - 1); }
  }
}

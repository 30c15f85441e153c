/** The exact helpers of quadratic_sieve.py: Euler's criterion for the Legendre
    symbol, the 2- and 3-adic valuations, Russian-peasant modular multiplication,
    the factor base, the exponent-parity matrix and the final combination of a
    null-space vector into a gcd. */
module QuadraticSieve {
  import opened Arith
  import opened Euclid
  import opened Fermat
  import opened Wrappers
  import opened Bits
  import opened FactorMaps

  // ---------------------------------------------------------------------
  // legendre

  /** `legendre(a, p)` for p >= 1 (the modulus of `pow`), with its assertion
      gcd(a, p) == 1 as the precondition: 1 or -1 by Euler's criterion, None where
      the source raises ValueError. */
  function Legendre(a: int, p: int): (r: Option<int>)
    requires p >= 1 && Gcd(a, p) == 1
    ensures r.Some? ==> (r.value == 1 || r.value == -1) && Cong(Pow(a, (p - 1) / 2), r.value, p)
    ensures r.None? ==> !Cong(Pow(a, (p - 1) / 2), 1, p) && !Cong(Pow(a, (p - 1) / 2), -1, p)
  {
    var check := ModPow(a, (p - 1) / 2, p);
    ResidueTests(Pow(a, (p - 1) / 2), p, check);
    if check == 1 then Some(1)
    else if check == p - 1 then Some(-1)
    else None
  }

  /** The tests of `legendre` on the remainder c of v: 1 means v is 1 modulo p,
      p - 1 means v is -1 modulo p, anything else means neither. */
  lemma ResidueTests(v: int, p: int, c: int)
    requires p >= 1 && c == v % p
    ensures c == 1 ==> Cong(v, 1, p)
    ensures c == p - 1 ==> Cong(v, -1, p)
    ensures c != 1 && c != p - 1 ==> !Cong(v, 1, p) && !Cong(v, -1, p)
  {
    CongMod(v, 1, p);
    CongMod(v, -1, p);
    DivUnique(-1, p, -1, p - 1);
    if p == 1 {
      assert c == 0;
    } else {
      DivUnique(1, p, 0, 1);
    }
  }

  /** A prime dividing a has gcd(a, p) == p. */
  lemma CoprimeToPrime(a: int, p: int)
    requires IsPrime(p) && Gcd(a, p) == 1
    ensures !Divides(p, a)
  {
    if Divides(p, a) {
      DividesSelf(p);
      GcdGreatest(a, p, p);
      DividesLe(p, 1);
    }
  }

  /** For a prime p the symbol is always defined (Euler's criterion). */
  lemma LegendrePrime(a: int, p: int)
    requires IsPrime(p) && Gcd(a, p) == 1
    ensures Legendre(a, p).Some?
  {
    if p > 2 {
      CoprimeToPrime(a, p);
      var h := (p - 1) / 2;
      assert p % 2 == 1;
      assert h + h == p - 1;
      PowAdd(a, h, h);
      FermatLittle(a, p);
      PowModSquare(Pow(a, h), p);
      var check := Pow(a, h) % p;
      SquareRootOfOne(p, check);
    }
  }

  /** A square that is coprime to p has symbol 1; so -1 marks a non-residue. */
  lemma LegendreOfSquare(a: int, p: int, x: int)
    requires IsPrime(p) && Gcd(a, p) == 1 && Cong(x * x, a, p)
    ensures Legendre(a, p) == Some(1)
  {
    var h := (p - 1) / 2;
    if p == 2 {
      assert h == 0;
    } else {
      CoprimeToPrime(a, p);
      var s := x * x;
      CongSym(s, a, p);
      if Divides(p, x) {
        DividesMul(p, x, x);
        DividesAdd(p, s, a - s);
      }
      assert p % 2 == 1;
      CongPow(a, x * x, h, p);
      assert Pow(x, 2) == x * x;
      PowMul(x, 2, h);
      assert 2 * h == p - 1;
      FermatLittle(x, p);
      CongMod(Pow(a, h), Pow(x, p - 1), p);
    }
  }

  // ---------------------------------------------------------------------
  // extract2 and extract3

  /** `extract2(m)`: `len(bin(m & ~(m - 1))) - 3`. For m != 0, `m & ~(m - 1)`
      (Python's two's complement on unbounded integers) is the lowest set bit of
      |m|, whose bit length minus one is the 2-adic valuation; for m == 0 it is 0
      and so is the result. */
  function Extract2(m: int): (v: nat)
    ensures m == 0 ==> v == 0
    ensures m != 0 ==> Divides(Pow2(v), m) && !Divides(Pow2(v + 1), m)
  {
    if m == 0 then 0
    else
      Log2Pow2(Val2(Abs(m)));
      Val2Divides(Abs(m));
      DividesAbs(Pow2(Val2(Abs(m))), m);
      DividesAbs(Pow2(Val2(Abs(m)) + 1), m);
      Log2(LowestPowerOfTwo(Abs(m)))
  }

  /** `extract3(m)`: divides out 3 while possible. The loop never ends for
      m == 0, hence the precondition. */
  method Extract3(m: int) returns (count: nat)
    requires m != 0
    ensures Divides(Pow(3, count), m) && !Divides(Pow(3, count + 1), m)
  {
    var temp := m;
    count := 0;
    while temp % 3 == 0
      invariant temp != 0 && m == Pow(3, count) * temp
      decreases Abs(temp)
    {
      var q := temp / 3;
      ThirdStep(temp, q, Pow(3, count));
      count := count + 1;
      temp := q;
    }
    DividesWitness(Pow(3, count), m, temp);
    if Divides(Pow(3, count + 1), m) {
      var q := DividesQuotient(Pow(3, count + 1), m);
      PowPositive(3, count);
      assert Pow(3, count + 1) == 3 * Pow(3, count);
      NotThreeTimes(Pow(3, count), temp, q);
    }
  }

  lemma ThirdStep(temp: int, q: int, c: int)
    requires temp != 0 && temp % 3 == 0 && q == temp / 3
    ensures q != 0 && Abs(q) < Abs(temp)
    ensures c * temp == (3 * c) * q
  {
    assert temp == 3 * q;
  }

  lemma NotThreeTimes(c: int, temp: int, q: int)
    requires c >= 1 && c * temp == (3 * c) * q
    ensures temp % 3 == 0
  {
    assert c * temp == c * (3 * q);
    CancelLeft(c, temp, 3 * q);
  }

  // ---------------------------------------------------------------------
  // mod_mul

  /** `mod_mul(a, b, mod)`: binary multiplication, adding the doubled a for each
      set bit of b. The loop runs forever for b < 0 and `%` by mod <= 0 is not
      the residue used here, hence the preconditions. */
  method ModMul(a: int, b: int, mod: int) returns (res: int)
    requires b >= 0 && mod > 0
    ensures res == (a * b) % mod
  {
    res := 0;
    var x := a % mod;
    var y := b;
    ghost var target := a * b;
    StartProduct(a, b, mod);
    while y != 0
      invariant y >= 0 && 0 <= res < mod && 0 <= x < mod
      invariant Cong(res + x * y, target, mod)
      decreases y
    {
      var res', x', y' := res, (2 * x) % mod, y / 2;
      if y % 2 == 1 {
        res' := (res + x) % mod;
      }
      DoublingStep(res, x, y, res', x', y', mod, target);
      res, x, y := res', x', y';
    }
    FinishProduct(res, x, target, mod);
  }

  lemma StartProduct(a: int, b: int, mod: int)
    requires mod > 0
    ensures Cong(0 + (a % mod) * b, a * b, mod)
  {
    ModIsCong(a, mod);
    CongRefl(b, mod);
    CongMul(a % mod, a, b, b, mod);
  }

  lemma FinishProduct(res: int, x: int, target: int, mod: int)
    requires mod > 0 && 0 <= res < mod && Cong(res + x * 0, target, mod)
    ensures res == target % mod
  {
    CongMod(res, target, mod);
  }

  lemma SplitProduct(x: int, y: int, y': int, bit: int)
    requires y == 2 * y' + bit && (bit == 0 || bit == 1)
    ensures x * y == (if bit == 1 then x else 0) + (2 * x) * y'
  {
    if bit == 1 {
      assert x * y == x * (2 * y') + x;
    } else {
      assert x * y == x * (2 * y');
    }
  }

  /** One step of the loop keeps res + a * b unchanged modulo mod. */
  lemma DoublingStep(res: int, x: int, y: int, res': int, x': int, y': int, mod: int, target: int)
    requires mod > 0 && y >= 0
    requires x' == (2 * x) % mod && y' == y / 2
    requires res' == if y % 2 == 1 then (res + x) % mod else res
    requires Cong(res + x * y, target, mod)
    ensures Cong(res' + x' * y', target, mod)
  {
    var bit := y % 2;
    var low := if bit == 1 then res + x else res;
    SplitProduct(x, y, y', bit);
    assert res + x * y == low + (2 * x) * y';
    ModIsCong(2 * x, mod);
    CongRefl(y', mod);
    CongMul(x', 2 * x, y', y', mod);
    if bit == 1 {
      ModIsCong(low, mod);
    } else {
      CongRefl(res, mod);
    }
    CongAdd(res', low, x' * y', (2 * x) * y', mod);
    CongTrans(res' + x' * y', res + x * y, target, mod);
  }
}

/** Exact integer arithmetic shared by every component: powers, divisibility,
    greatest common divisors, primality and congruences modulo m. */
module Arith {

  function Abs(a: int): nat { if a < 0 then -a else a }

  /** b to the power e (Python's b ** e for e >= 0). */
  function Pow(b: int, e: nat): int
    decreases e
  {
    if e == 0 then 1 else b * Pow(b, e - 1)
  }

  /** d divides x. */
  predicate Divides(d: int, x: int)
  {
    if d == 0 then x == 0 else x % d == 0
  }

  /** Python's `pow(x, m, n)` for n > 0. */
  function ModPow(x: int, m: nat, n: int): int
    requires n > 0
  {
    Pow(x, m) % n
  }

  /** a is congruent to b modulo m. */
  predicate Cong(a: int, b: int, m: int)
    requires m > 0
  {
    (a - b) % m == 0
  }

  predicate IsPrime(n: int)
  {
    n >= 2 && forall d :: 2 <= d < n ==> n % d != 0
  }

  /** Euclid's algorithm on natural numbers, recursing on the smaller argument
      in the same way as the extended algorithm does. */
  function GcdNat(a: nat, b: nat): nat
    decreases a
  {
    if a == 0 then b else GcdNat(b % a, a)
  }

  /** math.gcd: the gcd of the absolute values, with gcd(0, 0) == 0. */
  function Gcd(a: int, b: int): nat
  {
    GcdNat(Abs(a), Abs(b))
  }

  /** Exact integer square root (math.isqrt). */
  function Isqrt(n: nat): (r: nat)
    ensures r * r <= n < (r + 1) * (r + 1)
  {
    if n == 0 then 0
    else
      var s := Isqrt(n - 1);
      if (s + 1) * (s + 1) <= n then s + 1 else s
  }

  // ---------------------------------------------------------------------
  // Divisibility and congruences

  lemma DividesWitness(d: int, x: int, k: int)
    requires x == d * k
    ensures Divides(d, x)
  {
    if d != 0 {
      var q, r := x / d, x % d;
      assert x == d * q + r && 0 <= r < Abs(d);
      assert d * (k - q) == r;
      if k - q != 0 {
        MulAbsAtLeast(d, k - q);
        assert false;
      }
    }
  }

  lemma MulAbsAtLeast(d: int, t: int)
    requires d != 0 && t != 0
    ensures Abs(d * t) >= Abs(d)
  {
    AbsMul(d, t);
    MulAtLeast(Abs(d), Abs(t));
  }

  lemma AbsMul(d: int, t: int)
    ensures Abs(d * t) == Abs(d) * Abs(t)
  {
    if d < 0 {
      assert d * t == -((-d) * t);
      if t < 0 { assert (-d) * t == -((-d) * (-t)); }
    } else {
      if t < 0 { assert d * t == -(d * (-t)); }
    }
    NonNegMul(Abs(d), Abs(t));
  }

  lemma NonNegMul(a: nat, b: nat)
    ensures a * b >= 0
  {
  }

  lemma MulAtLeast(a: nat, b: nat)
    requires b >= 1
    ensures a * b >= a
  {
    assert a * b == a * (b - 1) + a;
    NonNegMul(a, b - 1);
  }

  /** A number already in [0, m) is its own residue. */
  lemma SmallMod(a: int, m: int)
    requires 0 <= a < m
    ensures a % m == a
  {
    DivUnique(a, m, 0, a);
  }

  lemma DividesQuotient(d: int, x: int) returns (k: int)
    requires Divides(d, x)
    ensures x == d * k
  {
    if d == 0 { k := 0; } else { k := x / d; }
  }

  lemma DividesAdd(d: int, x: int, y: int)
    requires Divides(d, x) && Divides(d, y)
    ensures Divides(d, x + y) && Divides(d, x - y)
  {
    var k := DividesQuotient(d, x);
    var l := DividesQuotient(d, y);
    assert x + y == d * (k + l);
    assert x - y == d * (k - l);
    DividesWitness(d, x + y, k + l);
    DividesWitness(d, x - y, k - l);
  }

  lemma DividesMul(d: int, x: int, y: int)
    requires Divides(d, x)
    ensures Divides(d, x * y) && Divides(d, y * x)
  {
    var k := DividesQuotient(d, x);
    assert x * y == d * (k * y);
    DividesWitness(d, x * y, k * y);
  }

  lemma DividesTrans(a: int, b: int, c: int)
    requires Divides(a, b) && Divides(b, c)
    ensures Divides(a, c)
  {
    var k := DividesQuotient(a, b);
    var l := DividesQuotient(b, c);
    assert c == a * (k * l);
    DividesWitness(a, c, k * l);
  }

  lemma DividesSelf(d: int)
    ensures Divides(d, d) && Divides(d, 0) && Divides(1, d)
  {
    DividesWitness(d, d, 1);
    DividesWitness(d, 0, 0);
    DividesWitness(1, d, d);
  }

  lemma DividesNeg(d: int, x: int)
    requires Divides(d, x)
    ensures Divides(d, -x) && Divides(-d, x)
  {
    var k := DividesQuotient(d, x);
    DividesWitness(d, -x, -k);
    DividesWitness(-d, x, -k);
  }

  /** A positive divisor of a positive number is at most that number. */
  lemma DividesLe(d: int, x: int)
    requires d > 0 && x > 0 && Divides(d, x)
    ensures d <= x
  {
    var k := x / d;
    assert x == d * k;
    assert k != 0;
    assert d * k == d * (k - 1) + d;
    assert d * (k - 1) >= 0;
  }

  lemma ModIsCong(a: int, m: int)
    requires m > 0
    ensures Cong(a % m, a, m) && Cong(a, a % m, m)
  {
    assert a % m - a == m * (-(a / m));
    DividesWitness(m, a % m - a, -(a / m));
    DividesWitness(m, a - a % m, a / m);
  }

  lemma CongSym(a: int, b: int, m: int)
    requires m > 0 && Cong(a, b, m)
    ensures Cong(b, a, m)
  {
    DividesNeg(m, a - b);
  }

  lemma CongTrans(a: int, b: int, c: int, m: int)
    requires m > 0 && Cong(a, b, m) && Cong(b, c, m)
    ensures Cong(a, c, m)
  {
    DividesAdd(m, a - b, b - c);
    assert (a - b) + (b - c) == a - c;
  }

  lemma CongAdd(a: int, b: int, c: int, d: int, m: int)
    requires m > 0 && Cong(a, b, m) && Cong(c, d, m)
    ensures Cong(a + c, b + d, m) && Cong(a - c, b - d, m)
  {
    DividesAdd(m, a - b, c - d);
    assert (a + c) - (b + d) == (a - b) + (c - d);
    assert (a - c) - (b - d) == (a - b) - (c - d);
  }

  lemma CongMul(a: int, b: int, c: int, d: int, m: int)
    requires m > 0 && Cong(a, b, m) && Cong(c, d, m)
    ensures Cong(a * c, b * d, m)
  {
    DividesMul(m, a - b, c);
    DividesMul(m, c - d, b);
    DividesAdd(m, (a - b) * c, (c - d) * b);
    assert a * c - b * d == (a - b) * c + (c - d) * b;
  }

  lemma CongPow(a: int, b: int, e: nat, m: int)
    requires m > 0 && Cong(a, b, m)
    ensures Cong(Pow(a, e), Pow(b, e), m)
  {
    if e == 0 {
      DividesSelf(m);
    } else {
      CongPow(a, b, e - 1, m);
      CongMul(a, b, Pow(a, e - 1), Pow(b, e - 1), m);
    }
  }

  lemma CongRefl(a: int, m: int)
    requires m > 0
    ensures Cong(a, a, m)
  {
    DividesSelf(m);
  }

  /** Two numbers are congruent exactly when they leave the same remainder. */
  lemma CongMod(a: int, b: int, m: int)
    requires m > 0
    ensures Cong(a, b, m) <==> a % m == b % m
  {
    ModIsCong(a, m);
    ModIsCong(b, m);
    if Cong(a, b, m) {
      CongTrans(a % m, a, b, m);
      CongTrans(a % m, b, b % m, m);
      var k := DividesQuotient(m, a % m - b % m);
      if k != 0 {
        MulAbsAtLeast(m, k);
        assert false;
      }
    }
    if a % m == b % m {
      CongTrans(a, a % m, b, m);
    }
  }

  // ---------------------------------------------------------------------
  // Powers

  lemma PowAdd(b: int, e1: nat, e2: nat)
    ensures Pow(b, e1 + e2) == Pow(b, e1) * Pow(b, e2)
    decreases e1
  {
    if e1 > 0 {
      PowAdd(b, e1 - 1, e2);
      assert Pow(b, e1 + e2) == b * Pow(b, e1 - 1 + e2);
    }
  }

  lemma {:induction false} PowMul(b: int, e1: nat, e2: nat)
    ensures Pow(b, e1 * e2) == Pow(Pow(b, e1), e2)
    decreases e2
  {
    if e2 > 0 {
      NonNegMul(e1, e2 - 1);
      var rest: nat := e1 * (e2 - 1);
      MulPred(e1, e2);
      PowMul(b, e1, e2 - 1);
      PowAddAt(b, rest, e1, e1 * e2);
      var x, y := Pow(b, e1), Pow(b, rest);
      assert y == Pow(x, e2 - 1);
      assert Pow(x, e2) == x * y;
      assert Pow(b, e1 * e2) == y * x;
    }
  }

  lemma PowAddAt(b: int, e1: nat, e2: nat, e: nat)
    requires e == e1 + e2
    ensures Pow(b, e) == Pow(b, e1) * Pow(b, e2)
  {
    PowAdd(b, e1, e2);
  }

  lemma MulPred(a: nat, b: nat)
    requires b >= 1
    ensures a * b == a * (b - 1) + a
  {
  }

  lemma PowProduct(a: int, b: int, e: nat)
    ensures Pow(a * b, e) == Pow(a, e) * Pow(b, e)
    decreases e
  {
    if e > 0 {
      PowProduct(a, b, e - 1);
      var pa, pb := Pow(a, e - 1), Pow(b, e - 1);
      assert Pow(a * b, e) == (a * b) * (pa * pb);
      MulSwap(a, b, pa, pb);
    }
  }

  lemma MulRotate(a: int, x: int, y: int)
    ensures y * (a * x) == x * (a * y)
  {
  }

  lemma SquareMinusOne(v: int)
    ensures v * v - 1 == (v - 1) * (v + 1)
  {
  }

  lemma MulSwap(a: int, b: int, c: int, d: int)
    ensures (a * b) * (c * d) == (a * c) * (b * d)
  {
  }

  lemma PowPositive(b: int, e: nat)
    requires b > 0
    ensures Pow(b, e) > 0
  {
    if e > 0 { PowPositive(b, e - 1); }
  }

  lemma PowOne(e: nat)
    ensures Pow(1, e) == 1
  {
    if e > 0 { PowOne(e - 1); }
  }

  lemma PowModCong(b: int, e: nat, m: int)
    requires m > 0
    ensures Pow(b % m, e) % m == Pow(b, e) % m
  {
    ModIsCong(b, m);
    CongPow(b % m, b, e, m);
    CongMod(Pow(b % m, e), Pow(b, e), m);
  }

  lemma PowModSquare(y: int, n: int)
    requires n > 0
    ensures ((y % n) * (y % n)) % n == (y * y) % n
  {
    ModIsCong(y, n);
    CongMul(y % n, y, y % n, y, n);
    CongMod((y % n) * (y % n), y * y, n);
  }

  // ---------------------------------------------------------------------
  // Greatest common divisor

  lemma GcdNatDivides(a: nat, b: nat)
    ensures Divides(GcdNat(a, b), a) && Divides(GcdNat(a, b), b)
    decreases a
  {
    if a == 0 {
      DividesSelf(b);
    } else {
      GcdNatDivides(b % a, a);
      var g := GcdNat(a, b);
      assert b == a * (b / a) + b % a;
      DividesMul(g, a, b / a);
      DividesAdd(g, a * (b / a), b % a);
    }
  }

  lemma DividesAbs(d: int, x: int)
    ensures Divides(d, x) <==> Divides(d, Abs(x))
  {
    if Divides(d, x) && x < 0 { DividesNeg(d, x); }
    if Divides(d, Abs(x)) && x < 0 { DividesNeg(d, Abs(x)); }
  }

  lemma GcdDivides(a: int, b: int)
    ensures Divides(Gcd(a, b), a) && Divides(Gcd(a, b), b)
  {
    GcdNatDivides(Abs(a), Abs(b));
    DividesAbs(Gcd(a, b), a);
    DividesAbs(Gcd(a, b), b);
  }

  /** The gcd with a positive number is positive and at most that number. */
  lemma GcdBounds(a: int, n: int)
    requires n > 0
    ensures 1 <= Gcd(a, n) <= n
  {
    GcdDivides(a, n);
    if Gcd(a, n) == 0 { assert false; }
    DividesLe(Gcd(a, n), n);
  }

  lemma GcdNatSwap(a: nat, b: nat)
    requires a > 0
    ensures GcdNat(a, b) == GcdNat(b % a, a)
  {
  }

  /** Euclidean division is unique. */
  lemma DivUnique(a: int, b: int, q: int, r: int)
    requires b > 0 && a == b * q + r && 0 <= r < b
    ensures a / b == q && a % b == r
  {
    var q0, r0 := a / b, a % b;
    assert b * (q - q0) == r0 - r;
    if q - q0 != 0 {
      MulAbsAtLeast(b, q - q0);
    }
  }

  // ---------------------------------------------------------------------
  // Primes

  /** A number with no divisor d, 2 <= d, d * d <= k, is prime. */
  lemma NoSmallDivisorIsPrime(k: int)
    requires k >= 2
    requires forall d :: 2 <= d && d * d <= k ==> k % d != 0
    ensures IsPrime(k)
  {
    forall d | 2 <= d < k ensures k % d != 0 {
      if k % d == 0 {
        var e := k / d;
        assert k == d * e;
        CofactorBounds(k, d, e);
        if d * d > k {
          DividesWitness(e, k, d);
        }
      }
    }
  }

  lemma CofactorBounds(k: int, d: int, e: int)
    requires k == d * e && 2 <= d < k
    ensures 2 <= e < k && (d * d > k ==> e * e <= k)
  {
    PositiveFactor(d, e);
    assert e != 1;
    MulLe(e, 2, d);
    if d * d > k {
      LessFactor(d, e);
      MulLe(e, e, d);
    }
  }

  lemma MulLe(a: int, b: int, c: int)
    requires a >= 0 && b <= c
    ensures a * b <= a * c
  {
    assert a * c - a * b == a * (c - b);
  }

  lemma PositiveFactor(d: int, e: int)
    requires d > 0 && d * e > 0
    ensures e > 0
  {
  }

  lemma LessFactor(d: int, e: int)
    requires d > 0 && d * e < d * d
    ensures e < d
  {
  }

  /** Every k >= 2 has a prime divisor no larger than itself. */
  lemma PrimeDivisorExists(k: int) returns (q: int)
    requires k >= 2
    ensures IsPrime(q) && q <= k && k % q == 0
    decreases k
  {
    if IsPrime(k) {
      q := k;
    } else {
      var d :| 2 <= d < k && k % d == 0;
      var q' := PrimeDivisorExists(d);
      DividesTrans(q', d, k);
      q := q';
    }
  }
}

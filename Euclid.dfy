/** Python's floor division, the extended Euclidean algorithm and the two
    modular inverses built on it (`egcd`, `mod_inverse2` and `mod_inverse` in
    lenstra_elliptic_curve.py). */
module Euclid {
  import opened Arith
  import opened Wrappers

  /** Python's `b // a`: division rounding towards minus infinity. */
  function FloorDiv(b: int, a: int): int
    requires a != 0
  {
    if a > 0 then b / a else (-b) / (-a)
  }

  /** Python's `b % a`: the remainder of `b // a`, which takes the sign of a. */
  function FloorMod(b: int, a: int): (r: int)
    requires a != 0
    ensures b == a * FloorDiv(b, a) + r
    ensures a > 0 ==> 0 <= r < a
    ensures a < 0 ==> a < r <= 0
  {
    if a > 0 then b % a else -((-b) % (-a))
  }

  /** `egcd(a, b)`: returns (g, x, y) with a*x + b*y == g. The recursion uses
      Python's floor `//` and `%`, so it is defined for every integer a. */
  function Egcd(a: int, b: int): (r: (int, int, int))
    ensures a * r.1 + b * r.2 == r.0
    ensures a >= 0 && b >= 0 ==> r.0 == GcdNat(a, b)
    decreases Abs(a)
  {
    if a == 0 then (b, 0, 1)
    else
      var t := Egcd(FloorMod(b, a), a);
      var g, y, x := t.0, t.1, t.2;
      BezoutStep(a, b, x, y, g);
      (g, x - FloorDiv(b, a) * y, y)
  }

  lemma BezoutStep(a: int, b: int, x: int, y: int, g: int)
    requires a != 0
    requires FloorMod(b, a) * y + a * x == g
    ensures a * (x - FloorDiv(b, a) * y) + b * y == g
  {
    var q := FloorDiv(b, a);
    assert b * y == (a * q) * y + FloorMod(b, a) * y;
    assert a * (x - q * y) == a * x - (a * q) * y;
  }

  /** Every common divisor of a and b divides their gcd (from Bezout's identity). */
  lemma GcdGreatest(a: int, b: int, d: int)
    requires Divides(d, a) && Divides(d, b)
    ensures Divides(d, Gcd(a, b))
  {
    var r := Egcd(Abs(a), Abs(b));
    DividesAbs(d, a);
    DividesAbs(d, b);
    DividesMul(d, Abs(a), r.1);
    DividesMul(d, Abs(b), r.2);
    DividesAdd(d, Abs(a) * r.1, Abs(b) * r.2);
  }

  /** Bezout's identity for math.gcd. */
  lemma Bezout(a: int, b: int) returns (x: int, y: int)
    ensures a * x + b * y == Gcd(a, b)
  {
    var r := Egcd(Abs(a), Abs(b));
    x := if a < 0 then -r.1 else r.1;
    y := if b < 0 then -r.2 else r.2;
  }

  lemma MutualDivisionEqual(g: nat, h: nat)
    requires Divides(g, h) && Divides(h, g)
    ensures g == h
  {
    if g != 0 && h != 0 {
      DividesLe(g, h);
      DividesLe(h, g);
    }
  }

  /** b == a*q + r leaves the gcd unchanged: gcd(r, a) == gcd(a, b). */
  lemma GcdStep(a: int, b: int, q: int, r: int)
    requires b == a * q + r
    ensures Gcd(r, a) == Gcd(a, b)
  {
    var g, h := Gcd(r, a), Gcd(a, b);
    GcdDivides(r, a);
    DividesMul(g, a, q);
    DividesAdd(g, a * q, r);
    GcdGreatest(a, b, g);
    GcdDivides(a, b);
    DividesMul(h, a, q);
    DividesAdd(h, b, a * q);
    GcdGreatest(r, a, h);
    MutualDivisionEqual(g, h);
  }

  /** The g of `egcd(a, b)` is b when a == 0, and otherwise the gcd carrying
      the sign of a: every remainder of Python's `%` by a negative number is
      at most 0, so the recursion never leaves the negative numbers. */
  lemma {:induction false} EgcdIsGcd(a: int, b: int)
    ensures Egcd(a, b).0 == if a == 0 then b else if a > 0 then Gcd(a, b) else -(Gcd(a, b) as int)
    decreases Abs(a)
  {
    if a != 0 {
      var r := FloorMod(b, a);
      EgcdIsGcd(r, a);
      GcdStep(a, b, FloorDiv(b, a), r);
      if r == 0 {
        assert Gcd(r, a) == Abs(a);
      }
    }
  }

  /** `mod_inverse2(a, m)`: None stands for the raised ValueError. For a
      negative base the g of `egcd` is -gcd(a, m), never 1, so every negative
      base is rejected. */
  function ModInverse2(a: int, m: int): (r: Option<int>)
    requires m >= 1
    ensures a >= 0 ==> (r.None? <==> Gcd(a, m) != 1)
    ensures a < 0 ==> r.None?
    ensures r.Some? ==> 0 <= r.value < m && (a * r.value) % m == 1 % m
  {
    var t := Egcd(a, m);
    EgcdIsGcd(a, m);
    GcdBounds(a, m);
    if t.0 != 1 then None
    else
      InverseFromBezout(a, m, t.1, t.2);
      Some(t.1 % m)
  }

  lemma InverseFromBezout(a: int, m: int, x: int, y: int)
    requires m >= 1 && a * x + m * y == 1
    ensures (a * (x % m)) % m == 1 % m
  {
    ModIsCong(x, m);
    CongRefl(a, m);
    CongMul(a, a, x % m, x, m);
    assert a * x - 1 == m * (-y);
    DividesWitness(m, a * x - 1, -y);
    CongTrans(a * (x % m), a * x, 1, m);
    CongMod(a * (x % m), 1, m);
  }

  lemma GcdOfMod(a: int, m: int)
    requires m >= 1
    ensures Gcd(a % m, m) == Gcd(a, m)
  {
    var g, h := Gcd(a % m, m), Gcd(a, m);
    assert a == m * (a / m) + a % m;
    GcdDivides(a % m, m);
    DividesMul(g, m, a / m);
    DividesAdd(g, m * (a / m), a % m);
    GcdGreatest(a, m, g);
    GcdDivides(a, m);
    DividesMul(h, m, a / m);
    DividesAdd(h, a, m * (a / m));
    GcdGreatest(a % m, m, h);
    MutualDivisionEqual(g, h);
  }

  /** x is an inverse of a modulo m. */
  predicate IsInverse(a: int, m: int, x: int)
    requires m >= 1
  {
    (a * x) % m == 1 % m
  }

  /** The least inverse of a modulo m in [from, m), found by trying each candidate. */
  function InverseSearch(a: int, m: int, from: nat): (r: Option<int>)
    requires m >= 1 && from <= m
    ensures r.Some? ==> from <= r.value < m && IsInverse(a, m, r.value)
    ensures r.None? ==> forall y :: from <= y < m ==> !IsInverse(a, m, y)
    decreases m - from
  {
    if from == m then None
    else if IsInverse(a, m, from) then Some(from)
    else InverseSearch(a, m, from + 1)
  }

  /** A number with an inverse modulo m is coprime to m. */
  lemma InverseMeansCoprime(a: int, m: int, x: int)
    requires m >= 1 && IsInverse(a, m, x)
    ensures Gcd(a, m) == 1
  {
    var g := Gcd(a, m);
    GcdBounds(a, m);
    if m > 1 {
      var v := a * x;
      var k := RemainderOne(v, m);
      GcdDivides(a, m);
      DividesMul(g, a, x);
      DividesMul(g, m, k);
      DividesAdd(g, v, m * k);
      DividesLe(g, 1);
    }
  }

  /** v leaving remainder 1 % m modulo m > 1 is one more than a multiple of m. */
  lemma RemainderOne(v: int, m: int) returns (k: int)
    requires m > 1 && v % m == 1 % m
    ensures v - m * k == 1
  {
    DivUnique(1, m, 0, 1);
    k := v / m;
  }

  /** `mod_inverse(a, m)`, Python's `pow(a, -1, m)`: None stands for the ValueError
      raised when a has no inverse modulo m. The base is reduced modulo m and
      handed to the algorithm of `mod_inverse2`, which is then correct for every
      integer base. */
  function ModInverse(a: int, m: int): (r: Option<int>)
    requires m >= 1
    ensures r.None? <==> Gcd(a, m) != 1
    ensures r.Some? ==> 0 <= r.value < m && (a * r.value) % m == 1 % m
  {
    GcdOfMod(a, m);
    var r := ModInverse2(a % m, m);
    if r.Some? then
      ModIsCong(a, m);
      CongRefl(r.value, m);
      CongMul(a % m, a, r.value, r.value, m);
      CongMod(a % m * r.value, a * r.value, m);
      r
    else r
  }

  /** `pow(a, -1, m)` is the inverse found by trying 0, 1, ..., m - 1 in turn. */
  lemma ModInverseIsLeast(a: int, m: int)
    requires m >= 1
    ensures ModInverse(a, m) == InverseSearch(a, m, 0)
  {
    var r, s := InverseSearch(a, m, 0), ModInverse(a, m);
    if s.Some? {
      SearchFinds(a, m, 0, s.value);
      InverseUnique(a, m, r.value, s.value);
    } else if r.Some? {
      InverseMeansCoprime(a, m, r.value);
    }
  }

  /** The search from `from` finds something when an inverse lies at or after `from`. */
  lemma SearchFinds(a: int, m: int, from: nat, y: int)
    requires m >= 1 && from <= y < m && IsInverse(a, m, y)
    ensures InverseSearch(a, m, from).Some?
  {
  }

  /** Inverses modulo m are unique in [0, m). */
  lemma {:induction false} InverseUnique(a: int, m: int, x: int, x': int)
    requires m >= 1 && 0 <= x < m && 0 <= x' < m
    requires (a * x) % m == 1 % m && (a * x') % m == 1 % m
    ensures x == x'
  {
    CongMod(a * x, 1, m);
    CongMod(a * x', 1, m);
    CongRefl(x, m);
    CongRefl(x', m);
    CongMul(x', x', a * x, 1, m);
    CongMul(x, x, a * x', 1, m);
    MulRotate(a, x, x');
    CongSym(x' * (a * x), x', m);
    CongTrans(x', x' * (a * x), x, m);
    CongMod(x', x, m);
    SmallMod(x, m);
    SmallMod(x', m);
  }

  /** The two inverse functions of the source agree for every base >= 0. */
  lemma ModInversesAgree(a: int, m: int)
    requires a >= 0 && m >= 1
    ensures ModInverse(a, m) == ModInverse2(a, m)
  {
    var r, s := ModInverse(a, m), ModInverse2(a, m);
    if r.Some? && s.Some? {
      InverseUnique(a, m, r.value, s.value);
    }
  }

  /** `mod_inverse2(-3, 7)` raises although 2 is the inverse of -3 modulo 7:
      `egcd(-3, 7)` ends with g == -1. */
  lemma NegativeBaseRejected()
    ensures Egcd(-3, 7).0 == -1
    ensures ModInverse2(-3, 7).None?
    ensures ModInverse(-3, 7) == Some(2)
  {
    EgcdIsGcd(-3, 7);
    assert Gcd(-3, 7) == 1;
    var r := ModInverse(-3, 7);
    assert (-3 * 2) % 7 == 1;
    InverseUnique(-3, 7, r.value, 2);
  }

  /** Divisors of a prime. */
  lemma PrimeDivisors(p: int, d: int)
    requires IsPrime(p) && d > 0 && Divides(d, p)
    ensures d == 1 || d == p
  {
    DividesLe(d, p);
    assert !(2 <= d < p) by { if 2 <= d < p { assert false; } }
  }

  /** Euclid's lemma: a prime dividing a product divides one factor. */
  lemma EuclidLemma(p: int, a: int, b: int)
    requires IsPrime(p) && Divides(p, a * b)
    ensures Divides(p, a) || Divides(p, b)
  {
    if !Divides(p, a) {
      var g := Gcd(a, p);
      GcdDivides(a, p);
      GcdBounds(a, p);
      PrimeDivisors(p, g);
      assert g == 1;
      var x, y := Bezout(a, p);
      assert b == (a * b) * x + p * (b * y) by {
        assert b == b * (a * x + p * y);
      }
      DividesMul(p, a * b, x);
      DividesSelf(p);
      DividesMul(p, p, b * y);
      DividesAdd(p, (a * b) * x, p * (b * y));
    }
  }
}

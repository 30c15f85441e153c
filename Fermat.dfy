/** Fermat's little theorem (through the binomial theorem) and the square roots
    of 1 modulo a prime: the number theory behind Euler's criterion in `legendre`
    and behind the claim that Miller-Rabin never rejects a prime. */
module Fermat {
  import opened Arith
  import opened Euclid

  function Binom(n: nat, k: nat): nat
    decreases n
  {
    if k == 0 then 1 else if n == 0 then 0 else Binom(n - 1, k - 1) + Binom(n - 1, k)
  }

  /** Sum of Binom(n, i) * a^i for i in [0, k]. */
  function BinomSum(a: int, n: nat, k: nat): int
    decreases k
  {
    if k == 0 then 1 else BinomSum(a, n, k - 1) + Binom(n, k) * Pow(a, k)
  }

  lemma BinomBeyond(n: nat, k: nat)
    requires k > n
    ensures Binom(n, k) == 0
    decreases n
  {
    if n > 0 { BinomBeyond(n - 1, k - 1); BinomBeyond(n - 1, k); }
  }

  lemma BinomDiagonal(n: nat)
    ensures Binom(n, n) == 1
  {
    if n > 0 { BinomDiagonal(n - 1); BinomBeyond(n - 1, n); }
  }

  lemma BinomOne(n: nat)
    ensures Binom(n, 1) == n
  {
    if n > 0 { BinomOne(n - 1); }
  }

  /** k * C(n, k) == n * C(n - 1, k - 1). */
  lemma {:induction false} BinomAbsorb(n: nat, k: nat)
    requires n >= 1 && k >= 1
    ensures k * Binom(n, k) == n * Binom(n - 1, k - 1)
    decreases n
  {
    if k == 1 {
      BinomOne(n);
    } else if n == 1 {
      BinomBeyond(0, k - 1);
      BinomBeyond(1, k);
    } else {
      BinomAbsorb(n - 1, k - 1);
      BinomAbsorb(n - 1, k);
      AbsorbStep(n, k, Binom(n - 1, k - 1), Binom(n - 1, k), Binom(n - 2, k - 2), Binom(n - 2, k - 1));
    }
  }

  lemma AbsorbStep(n: int, k: int, c1: int, c2: int, x: int, y: int)
    requires c1 == x + y && (k - 1) * c1 == (n - 1) * x && k * c2 == (n - 1) * y
    ensures k * (c1 + c2) == n * c1
  {
    calc {
      k * (c1 + c2);
      (k - 1) * c1 + c1 + k * c2;
      (n - 1) * x + (n - 1) * y + c1;
      (n - 1) * (x + y) + c1;
      n * c1;
    }
  }

  lemma {:induction false} PascalSum(a: int, n: nat, k: nat)
    requires k >= 1
    ensures BinomSum(a, n + 1, k) == BinomSum(a, n, k) + a * BinomSum(a, n, k - 1)
    decreases k
  {
    if k == 1 {
      PascalBase(a, n);
    } else {
      PascalSum(a, n, k - 1);
      var pk, s1, s2 := Pow(a, k - 1), BinomSum(a, n, k - 1), BinomSum(a, n, k - 2);
      var b1, b2 := Binom(n, k - 1), Binom(n, k);
      assert Binom(n + 1, k) == b1 + b2;
      assert Pow(a, k) == a * pk;
      PascalStep(a, pk, Pow(a, k), s1, s2, b1, b2, BinomSum(a, n + 1, k - 1),
        BinomSum(a, n + 1, k), BinomSum(a, n, k));
    }
  }

  lemma PascalBase(a: int, n: nat)
    ensures BinomSum(a, n + 1, 1) == BinomSum(a, n, 1) + a * BinomSum(a, n, 0)
  {
    BinomOne(n + 1);
    BinomOne(n);
    assert Pow(a, 1) == a;
    assert (n + 1) * a == n * a + a;
  }

  lemma PascalStep(a: int, pk: int, pk1: int, s1: int, s2: int, b1: int, b2: int, t: int, lhs: int, sk: int)
    requires pk1 == a * pk && s1 == s2 + b1 * pk && t == s1 + a * s2
    requires lhs == t + (b1 + b2) * pk1 && sk == s1 + b2 * pk1
    ensures lhs == sk + a * s1
  {
    calc {
      lhs;
      s1 + a * s2 + b1 * (a * pk) + b2 * pk1;
      { assert b1 * (a * pk) == a * (b1 * pk); }
      sk + a * (s2 + b1 * pk);
    }
  }

  /** The binomial theorem for (a + 1)^n. */
  lemma {:induction false} BinomialTheorem(a: int, n: nat)
    ensures Pow(a + 1, n) == BinomSum(a, n, n)
  {
    if n > 0 {
      BinomialTheorem(a, n - 1);
      PascalSum(a, n - 1, n);
      BinomBeyond(n - 1, n);
      var s := BinomSum(a, n - 1, n - 1);
      ZeroTerm(Binom(n - 1, n), Pow(a, n));
      assert BinomSum(a, n - 1, n) == s;
      assert Pow(a + 1, n) == (a + 1) * s;
      OnePlusTimes(a, s);
    }
  }

  lemma ZeroTerm(z: int, x: int)
    requires z == 0
    ensures z * x == 0
  {
  }

  lemma OnePlusTimes(a: int, s: int)
    ensures (a + 1) * s == s + a * s
  {
  }

  lemma PrimeDividesBinom(p: int, k: nat)
    requires IsPrime(p) && 0 < k < p
    ensures Divides(p, Binom(p, k))
  {
    BinomAbsorb(p, k);
    DividesWitness(p, k * Binom(p, k), Binom(p - 1, k - 1));
    EuclidLemma(p, k, Binom(p, k));
    if Divides(p, k) { DividesLe(p, k); }
  }

  lemma {:induction false} MiddleTerms(a: int, p: int, k: nat)
    requires IsPrime(p) && k < p
    ensures Cong(BinomSum(a, p, k), 1, p)
    decreases k
  {
    if k == 0 {
      CongRefl(1, p);
    } else {
      MiddleTerms(a, p, k - 1);
      PrimeDividesBinom(p, k);
      DividesMul(p, Binom(p, k), Pow(a, k));
      assert Cong(Binom(p, k) * Pow(a, k), 0, p);
      CongAdd(BinomSum(a, p, k - 1), 1, Binom(p, k) * Pow(a, k), 0, p);
    }
  }

  /** (a + 1)^p == a^p + 1 modulo a prime p. */
  lemma FreshmansDream(a: int, p: int)
    requires IsPrime(p)
    ensures Cong(Pow(a + 1, p), Pow(a, p) + 1, p)
  {
    BinomialTheorem(a, p);
    MiddleTerms(a, p, p - 1);
    BinomDiagonal(p);
    assert BinomSum(a, p, p) == BinomSum(a, p, p - 1) + Pow(a, p);
    CongRefl(Pow(a, p), p);
    CongAdd(BinomSum(a, p, p - 1), 1, Pow(a, p), Pow(a, p), p);
  }

  lemma {:induction false} FermatNat(a: nat, p: int)
    requires IsPrime(p)
    ensures Cong(Pow(a, p), a, p)
  {
    if a == 0 {
      PowZeroBase(p);
      CongRefl(0, p);
    } else {
      FermatNat(a - 1, p);
      FreshmansDream(a - 1, p);
      CongRefl(1, p);
      CongAdd(Pow(a - 1, p), a - 1, 1, 1, p);
      CongTrans(Pow(a, p), Pow(a - 1, p) + 1, a, p);
    }
  }

  lemma PowZeroBase(e: nat)
    requires e > 0
    ensures Pow(0, e) == 0
  {
  }

  /** a^p == a modulo a prime p, for every integer a. */
  lemma FermatAll(a: int, p: int)
    requires IsPrime(p)
    ensures Cong(Pow(a, p), a, p)
  {
    var r := a % p;
    FermatNat(r, p);
    ModIsCong(a, p);
    CongPow(a, r, p, p);
    CongTrans(Pow(a, p), Pow(r, p), r, p);
    CongTrans(Pow(a, p), r, a, p);
  }

  /** Fermat's little theorem: a^(p-1) == 1 modulo p when p does not divide a. */
  lemma FermatLittle(a: int, p: int)
    requires IsPrime(p) && !Divides(p, a)
    ensures Pow(a, p - 1) % p == 1
  {
    FermatAll(a, p);
    var q := Pow(a, p - 1);
    assert Pow(a, p) == a * q;
    assert a * (q - 1) == a * q - a;
    EuclidLemma(p, a, q - 1);
    CongMod(q, 1, p);
    SmallMod(1, p);
  }

  /** The only square roots of 1 modulo a prime are 1 and p - 1. */
  lemma SquareRootOfOne(p: int, v: int)
    requires IsPrime(p) && 0 <= v < p && (v * v) % p == 1
    ensures v == 1 || v == p - 1
  {
    SmallMod(1, p);
    CongMod(v * v, 1, p);
    SquareMinusOne(v);
    EuclidLemma(p, v - 1, v + 1);
    if Divides(p, v - 1) && v != 1 {
      if v == 0 {
        DividesNeg(p, -1);
        DividesLe(p, 1);
      } else {
        DividesLe(p, v - 1);
      }
    }
    if Divides(p, v + 1) {
      DividesLe(p, v + 1);
    }
  }
}

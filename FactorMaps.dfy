/** Factorisation dictionaries (prime -> exponent), as used by RationalSieve.py and by
    the relations of quadratic_sieve.py: the number a dictionary stands for, the
    merge of two dictionaries, and uniqueness of prime factorisations. */
module FactorMaps {
  import opened Arith
  import opened Euclid

  /** A dictionary from factors to exponents. */
  type Factors = map<int, nat>

  /** The exponent of p, 0 for a missing key. */
  function Exp(f: Factors, p: int): nat {
    if p in f then f[p] else 0
  }

  /** The number f stands for: the product of key^exponent over its keys. */
  ghost function Product(f: Factors): int
    decreases |f.Keys|
  {
    if forall k :: k !in f then 1
    else
      var k :| k in f;
      Pow(k, f[k]) * Product(f - {k})
  }

  /** The product does not depend on which key is taken out first. */
  lemma {:induction false} ProductRemove(f: Factors, k: int)
    requires k in f
    ensures Product(f) == Pow(k, f[k]) * Product(f - {k})
    decreases |f.Keys|
  {
    var j :| j in f && Product(f) == Pow(j, f[j]) * Product(f - {j});
    if j != k {
      ProductRemove(f - {j}, k);
      ProductRemove(f - {k}, j);
      assert f - {j} - {k} == f - {k} - {j};
      Rearrange(Pow(j, f[j]), Pow(k, f[k]), Product(f - {j} - {k}));
    }
  }

  lemma Rearrange(a: int, b: int, c: int)
    ensures a * (b * c) == b * (a * c)
  {
  }

  lemma Rearrange3(a: int, b: int, c: int)
    ensures (a * b) * c == (b * c) * a
  {
  }

  lemma ProductEmpty(f: Factors)
    requires forall k :: k !in f
    ensures Product(f) == 1
  {
  }

  /** Raising the exponent of k by one multiplies the product by k. */
  lemma ProductBump(f: Factors, k: int)
    ensures Product(f[k := Exp(f, k) + 1]) == Product(f) * k
  {
    var g := f[k := Exp(f, k) + 1];
    ProductRemove(g, k);
    assert g - {k} == f - {k};
    if k in f {
      ProductRemove(f, k);
      var e := f[k];
      assert Pow(k, e + 1) == k * Pow(k, e);
      Rearrange3(k, Pow(k, e), Product(f - {k}));
    } else {
      assert f - {k} == f;
    }
  }

  /** `prime_multiply(n_factors, m_factors)`: the key union, exponents added. */
  function Merge(f: Factors, g: Factors): (r: Factors)
    ensures r.Keys == f.Keys + g.Keys
    ensures forall k :: k in r ==> r[k] == Exp(f, k) + Exp(g, k)
  {
    map k | k in f.Keys + g.Keys :: Exp(f, k) + Exp(g, k)
  }

  /** The merged dictionary is the factorisation of the product. */
  lemma {:induction false} ProductMerge(f: Factors, g: Factors)
    ensures Product(Merge(f, g)) == Product(f) * Product(g)
    decreases |f.Keys|
  {
    if forall k :: k !in f {
      assert Merge(f, g) == g;
      ProductEmpty(f);
    } else {
      var k :| k in f;
      var h := Merge(f, g);
      MergeRemove(f, g, k);
      ProductMerge(f - {k}, g - {k});
      var a, b := Pow(k, f[k]), Pow(k, Exp(g, k));
      var c, d := Product(f - {k}), Product(g - {k});
      var rest := Product(h - {k});
      assert rest == c * d;
      ProductRemove(h, k);
      PowSplit(k, h[k], f[k], Exp(g, k));
      ProductRemove(f, k);
      ProductRemoveAny(g, k);
      Regroup(a, b, c, d);
    }
  }

  lemma PowSplit(k: int, e: nat, e1: nat, e2: nat)
    requires e == e1 + e2
    ensures Pow(k, e) == Pow(k, e1) * Pow(k, e2)
  {
    PowAdd(k, e1, e2);
  }

  lemma MergeRemove(f: Factors, g: Factors, k: int)
    requires k in f
    ensures k in Merge(f, g) && Merge(f, g)[k] == f[k] + Exp(g, k)
    ensures Merge(f, g) - {k} == Merge(f - {k}, g - {k})
  {
  }

  /** Taking out a key, present or not. */
  lemma ProductRemoveAny(f: Factors, k: int)
    ensures Product(f) == Pow(k, Exp(f, k)) * Product(f - {k})
  {
    if k in f {
      ProductRemove(f, k);
    } else {
      assert f - {k} == f;
    }
  }

  lemma Regroup(a: int, b: int, c: int, d: int)
    ensures (a * b) * (c * d) == (a * c) * (b * d)
  {
  }

  /** `is_even`: every exponent is even. */
  predicate IsEven(f: Factors) {
    forall k :: k in f ==> f[k] % 2 == 0
  }

  /** The dictionary with every exponent halved (`exponent // 2`). */
  function Halve(f: Factors): (r: Factors)
    ensures r.Keys == f.Keys && forall k :: k in f ==> r[k] == f[k] / 2
  {
    map k | k in f :: f[k] / 2
  }

  /** A dictionary with even exponents stands for the square of its halved dictionary. */
  lemma EvenIsSquare(f: Factors)
    requires IsEven(f)
    ensures Product(f) == Product(Halve(f)) * Product(Halve(f))
  {
    assert Merge(Halve(f), Halve(f)) == f;
    ProductMerge(Halve(f), Halve(f));
  }

  // ---------------------------------------------------------------------
  // Prime factorisations

  /** f is a prime factorisation of x: its keys are primes with positive exponents. */
  ghost predicate IsFactorization(f: Factors, x: int) {
    (forall p :: p in f ==> IsPrime(p) && f[p] >= 1) && Product(f) == x
  }

  lemma DividesPow(p: int, e: nat)
    requires e >= 1
    ensures Divides(p, Pow(p, e))
  {
    DividesWitness(p, Pow(p, e), Pow(p, e - 1));
  }

  /** A prime dividing a power of a prime q is q. */
  lemma {:induction false} PrimeDividesPrimePower(p: int, q: int, e: nat)
    requires IsPrime(p) && IsPrime(q) && Divides(p, Pow(q, e))
    ensures p == q
    decreases e
  {
    if e == 0 {
      DividesLe(p, 1);
    } else {
      EuclidLemma(p, q, Pow(q, e - 1));
      if Divides(p, q) {
        PrimeDivisors(q, p);
      } else {
        PrimeDividesPrimePower(p, q, e - 1);
      }
    }
  }

  /** A prime divides the product of a dictionary of primes exactly when it is a key. */
  lemma {:induction false} PrimeDividesProduct(f: Factors, p: int)
    requires IsPrime(p) && forall q :: q in f ==> IsPrime(q) && f[q] >= 1
    ensures Divides(p, Product(f)) <==> p in f
    decreases |f.Keys|
  {
    if forall k :: k !in f {
      ProductEmpty(f);
      if Divides(p, 1) { DividesLe(p, 1); }
    } else {
      var k :| k in f;
      ProductRemove(f, k);
      PrimeDividesProduct(f - {k}, p);
      if p in f {
        if p == k {
          DividesPow(p, f[p]);
          DividesMul(p, Pow(p, f[p]), Product(f - {k}));
        } else {
          DividesMul(p, Product(f - {k}), Pow(k, f[k]));
        }
      } else if Divides(p, Product(f)) {
        EuclidLemma(p, Pow(k, f[k]), Product(f - {k}));
        if Divides(p, Pow(k, f[k])) {
          PrimeDividesPrimePower(p, k, f[k]);
        }
      }
    }
  }

  /** p^a * x == p^b * y with p prime dividing neither x nor y forces a == b and x == y. */
  lemma {:induction false} CancelPrimePower(p: int, a: nat, b: nat, x: int, y: int)
    requires IsPrime(p) && !Divides(p, x) && !Divides(p, y)
    requires Pow(p, a) * x == Pow(p, b) * y
    ensures a == b && x == y
    decreases a + b
  {
    if a > 0 && b > 0 {
      var u, v := Pow(p, a - 1), Pow(p, b - 1);
      Assoc(p, u, x);
      Assoc(p, v, y);
      CancelLeft(p, u * x, v * y);
      CancelPrimePower(p, a - 1, b - 1, x, y);
    } else if a > 0 {
      var u := Pow(p, a - 1);
      Assoc(p, u, x);
      DividesWitness(p, y, u * x);
    } else if b > 0 {
      var v := Pow(p, b - 1);
      Assoc(p, v, y);
      DividesWitness(p, x, v * y);
    }
  }

  lemma Assoc(a: int, b: int, c: int)
    ensures (a * b) * c == a * (b * c)
  {
  }

  lemma CancelLeft(p: int, x: int, y: int)
    requires p != 0 && p * x == p * y
    ensures x == y
  {
  }

  /** Uniqueness of prime factorisation. */
  lemma {:induction false} FactorizationUnique(f: Factors, g: Factors, x: int)
    requires IsFactorization(f, x) && IsFactorization(g, x)
    ensures f == g
    decreases |f.Keys|
  {
    if forall k :: k !in f {
      ProductEmpty(f);
      if exists q :: q in g {
        var q :| q in g;
        PrimeDividesProduct(g, q);
        DividesSelf(1);
        DividesLe(q, 1);
      }
    } else {
      var k :| k in f;
      DividesPow(k, f[k]);
      ProductRemove(f, k);
      DividesMul(k, Pow(k, f[k]), Product(f - {k}));
      PrimeDividesProduct(g, k);
      ProductRemove(g, k);
      PrimeDividesProduct(f - {k}, k);
      PrimeDividesProduct(g - {k}, k);
      CancelPrimePower(k, f[k], g[k], Product(f - {k}), Product(g - {k}));
      FactorizationUnique(f - {k}, g - {k}, Product(f - {k}));
      assert f == (f - {k})[k := f[k]];
      assert g == (g - {k})[k := g[k]];
    }
  }

  /** Every x >= 1 has a prime factorisation. */
  lemma {:induction false} FactorizationExists(x: int) returns (f: Factors)
    requires x >= 1
    ensures IsFactorization(f, x)
    decreases x
  {
    if x == 1 {
      f := map[];
      ProductEmpty(f);
    } else {
      var p := PrimeDivisorExists(x);
      var y := x / p;
      assert x == p * y;
      PositiveFactor(p, y);
      if y >= x { MulLe(y, 2, p); }
      var g := FactorizationExists(y);
      f := g[p := Exp(g, p) + 1];
      ProductBump(g, p);
    }
  }

  /** The prime factorisation of x >= 1. */
  ghost function FactorizationOf(x: int): (f: Factors)
    requires x >= 1
    ensures IsFactorization(f, x)
  {
    HasFactorization(x);
    var f :| IsFactorization(f, x);
    f
  }

  lemma HasFactorization(x: int)
    requires x >= 1
    ensures exists f :: IsFactorization(f, x)
  {
    var f := FactorizationExists(x);
  }

  /** The keys of a factorisation are exactly the prime divisors. */
  lemma FactorizationKeys(f: Factors, x: int, p: int)
    requires IsFactorization(f, x) && IsPrime(p)
    ensures p in f <==> Divides(p, x)
  {
    PrimeDividesProduct(f, p);
  }
}

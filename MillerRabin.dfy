/** The Miller-Rabin variant of NaiveFactorize.py, MillerRabinPrimalityTest.py and
    Miller_Rabin_primality_test.py (the three function bodies are identical, so one
    method models all three), and `naive_factorize`.

    The ten bases that the source draws from `secrets.SystemRandom().randint(2, n - 1)`
    are a parameter; with them fixed, the verdict is a function of n. */
module MillerRabin {
  import opened Arith
  import opened Euclid
  import opened Fermat
  import opened Wrappers
  import opened Bits
  import opened FactorMaps

  /** The number of rounds (`range(10)`). */
  const Rounds: nat := 10

  /** The source returns an error string for n < 1 and a boolean otherwise. */
  datatype Verdict = NotPositive | Answer(probablyPrime: bool)

  /** Exponent used at step s of a round that has seen only ones so far. */
  function StepExponent(n: int, s: nat): nat
    requires n > 1
  {
    (n - 1) / Pow2(s)
  }

  /** Steps 0 .. s-1 of the round with base x all saw the value 1. */
  predicate OnesBefore(n: int, x: int, s: nat)
    requires n > 2
  {
    forall t :: 0 <= t < s ==> ModPow(x, StepExponent(n, t), n) == 1
  }

  /** A round with base x finds no witness: at the first step s < e whose value
      is not 1 (every earlier step halved m), the value is n - 1. */
  predicate RoundPasses(n: int, x: int, e: nat)
    requires n > 2
  {
    forall s :: 0 <= s < e && OnesBefore(n, x, s) ==>
      ModPow(x, StepExponent(n, s), n) == 1 || ModPow(x, StepExponent(n, s), n) == n - 1
  }

  /** The verdict with the given bases. */
  function Expected(n: int, bases: seq<int>): Verdict
    requires |bases| == Rounds
  {
    if n < 1 then NotPositive
    else if n == 1 then Answer(false)
    else if n == 2 then Answer(true)
    else if n % 2 == 0 then Answer(false)
    else Answer(forall r :: 0 <= r < Rounds ==> RoundPasses(n, bases[r], Val2(n - 1)))
  }

  predicate ValidBases(n: int, bases: seq<int>)
  {
    |bases| == Rounds &&
    (n > 2 && n % 2 == 1 ==> forall i :: 0 <= i < Rounds ==> 2 <= bases[i] <= n - 1)
  }

  lemma HalveExponent(n: int, s: nat)
    requires n > 1
    ensures StepExponent(n, s) / 2 == StepExponent(n, s + 1)
  {
    var a, b := n - 1, Pow2(s);
    var q := a / b;
    assert a == b * q + a % b;
    var q2, r2 := q / 2, q % 2;
    assert q == 2 * q2 + r2;
    assert a == (2 * b) * q2 + (b * r2 + a % b);
    assert 0 <= b * r2 + a % b < 2 * b;
    assert Pow2(s + 1) == 2 * b;
    DivUnique(a, 2 * b, q2, b * r2 + a % b);
  }

  /** Rounds 0 .. r - 1 all pass. */
  predicate RoundsPass(n: int, bases: seq<int>, e: nat, r: nat)
    requires n > 2 && r <= |bases|
  {
    forall r' :: 0 <= r' < r ==> RoundPasses(n, bases[r'], e)
  }

  lemma RoundsPassStep(n: int, bases: seq<int>, e: nat, r: nat)
    requires n > 2 && r < |bases|
    ensures RoundsPass(n, bases, e, r + 1) <==> RoundsPass(n, bases, e, r) && RoundPasses(n, bases[r], e)
  {
  }

  /** `MillerRabin(n)` with its ten random bases supplied. */
  method MillerRabin(n: int, bases: seq<int>) returns (verdict: Verdict)
    requires ValidBases(n, bases)
    ensures verdict == Expected(n, bases)
  {
    if n < 1 {
      verdict := NotPositive;
    } else if n == 1 {
      verdict := Answer(false);
    } else if n == 2 {
      verdict := Answer(true);
    } else if n % 2 == 0 {
      verdict := Answer(false);
    } else {
      var k := LowestPowerOfTwo(n - 1);
      var e := Log2(k);
      Log2Pow2(Val2(n - 1));
      var failcount := 0;
      for r := 0 to Rounds
        invariant failcount >= 0
        invariant failcount == 0 <==> RoundsPass(n, bases, e, r)
      {
        var fails := Round(n, bases[r], e);
        RoundsPassStep(n, bases, e, r);
        failcount := failcount + fails;
      }
      verdict := Answer(failcount == 0);
    }
  }

  /** One round with base x: the failures it adds to `failcount` (the source
      does not leave the round at a failure, so it can add several). */
  method Round(n: int, x: int, e: nat) returns (fails: nat)
    requires n > 2
    ensures fails == 0 <==> RoundPasses(n, x, e)
  {
    var m: nat := n - 1;
    fails := 0;
    var s := 0;
    while s < e
      invariant 0 <= s <= e
      invariant fails == 0 ==> m == StepExponent(n, s) && OnesBefore(n, x, s)
      invariant fails > 0 ==> !RoundPasses(n, x, e)
    {
      if ModPow(x, m, n) == 1 {
        if fails == 0 {
          HalveExponent(n, s);
        }
        m := m / 2;
      } else if ModPow(x, m, n) == n - 1 {
        break;
      } else {
        fails := fails + 1;
      }
      s := s + 1;
    }
  }

  /** The exponent e of the round loop is the 2-adic valuation of n - 1, and
      the exponents used, (n - 1) / 2^s, s < e, are all even. */
  lemma ExponentIsValuation(n: int, s: nat)
    requires n > 2 && n % 2 == 1 && s < Val2(n - 1)
    ensures Log2(LowestPowerOfTwo(n - 1)) == Val2(n - 1)
    ensures Divides(Pow2(Val2(n - 1)), n - 1) && !Divides(Pow2(Val2(n - 1) + 1), n - 1)
    ensures StepExponent(n, s) % 2 == 0
  {
    Log2Pow2(Val2(n - 1));
    Val2Divides(n - 1);
    Pow2Divides(s + 1, Val2(n - 1));
    DividesTrans(Pow2(s + 1), Pow2(Val2(n - 1)), n - 1);
    EvenQuotient(n - 1, s);
  }

  /** 2^(s+1) dividing a makes a / 2^s even. */
  lemma EvenQuotient(a: int, s: nat)
    requires Divides(Pow2(s + 1), a)
    ensures (a / Pow2(s)) % 2 == 0
  {
    var p := Pow2(s);
    assert Pow2(s + 1) == 2 * p;
    var q := DividesQuotient(2 * p, a);
    HalfQuotient(a, p, q);
  }

  lemma HalfQuotient(a: int, p: int, q: int)
    requires p >= 1 && a == (2 * p) * q
    ensures (a / p) % 2 == 0
  {
    Assoc(2, p, q);
    assert a == p * (2 * q) + 0;
    DivUnique(a, p, 2 * q, 0);
    DivUnique(2 * q, 2, q, 0);
  }

  lemma {:induction false} Pow2Divides(s: nat, t: nat)
    requires s <= t
    ensures Divides(Pow2(s), Pow2(t))
    decreases t
  {
    if s == t {
      DividesSelf(Pow2(t));
    } else {
      Pow2Divides(s, t - 1);
      DividesMul(Pow2(s), Pow2(t - 1), 2);
    }
  }

  /** One round with a base in [2, n - 1] never rejects a prime n. */
  lemma PrimePassesRound(n: int, x: int)
    requires IsPrime(n) && n > 2 && n % 2 == 1 && 2 <= x <= n - 1
    ensures RoundPasses(n, x, Val2(n - 1))
  {
    var e := Val2(n - 1);
    forall s | 0 <= s < e && OnesBefore(n, x, s)
      ensures ModPow(x, StepExponent(n, s), n) == 1 || ModPow(x, StepExponent(n, s), n) == n - 1
    {
      if s == 0 {
        if Divides(n, x) { DividesLe(n, x); }
        FermatLittle(x, n);
        assert StepExponent(n, 0) == n - 1;
      } else {
        var m := StepExponent(n, s);
        ExponentIsValuation(n, s - 1);
        HalveExponent(n, s - 1);
        assert StepExponent(n, s - 1) == 2 * m;
        assert ModPow(x, 2 * m, n) == 1;
        PowAdd(x, m, m);
        var v := Pow(x, m) % n;
        PowModSquare(Pow(x, m), n);
        SquareRootOfOne(n, v);
      }
    }
  }

  /** Miller-Rabin accepts every prime, whatever bases are drawn. */
  lemma PrimeAccepted(n: int, bases: seq<int>)
    requires IsPrime(n) && ValidBases(n, bases)
    ensures Expected(n, bases) == Answer(true)
  {
    if n > 2 {
      assert n % 2 != 0;
      forall r | 0 <= r < Rounds ensures RoundPasses(n, bases[r], Val2(n - 1)) {
        PrimePassesRound(n, bases[r]);
      }
    }
  }

  /** Bases for every candidate d of `naive_factorize`: bases[d] serves the call
      MillerRabin(d). */
  predicate ValidCandidateBases(bases: seq<seq<int>>)
  {
    forall d :: 0 <= d < |bases| ==> ValidBases(d, bases[d])
  }

  /** `naive_factorize(n)`: the first d in [2, isqrt(n) + 1] that Miller-Rabin
      accepts and that divides n, or None. */
  method NaiveFactorize(n: int, bases: seq<seq<int>>) returns (r: Option<int>)
    requires n >= 0
    requires |bases| == Isqrt(n) + 2 && ValidCandidateBases(bases)
    ensures r.Some? ==> 2 <= r.value <= Isqrt(n) + 1 && n % r.value == 0
    ensures r.Some? ==> forall d :: 2 <= d < r.value ==> n % d != 0
    ensures r.None? <==> forall d :: 2 <= d <= Isqrt(n) + 1 ==> n % d != 0
  {
    var maxfactor := Isqrt(n) + 1;
    var number := 2;
    while number <= maxfactor
      invariant 2 <= number <= maxfactor + 1
      invariant forall d :: 2 <= d < number ==> Expected(d, bases[d]) == Answer(true) ==> n % d != 0
    {
      var verdict := MillerRabin(number, bases[number]);
      if verdict != Answer(false) && n % number == 0 {
        SmallerDivisorsRejected(n, number, bases);
        return Some(number);
      }
      number := number + 1;
    }
    SmallerDivisorsRejected(n, number, bases);
    return None;
  }

  /** If no accepted number below `bound` divides n, no number there divides n:
      a divisor would have a prime divisor, which Miller-Rabin accepts. */
  lemma SmallerDivisorsRejected(n: int, bound: int, bases: seq<seq<int>>)
    requires n >= 0 && bound <= |bases| && ValidCandidateBases(bases)
    requires forall d :: 2 <= d < bound ==> Expected(d, bases[d]) == Answer(true) ==> n % d != 0
    ensures forall d :: 2 <= d < bound ==> n % d != 0
  {
    forall d | 2 <= d < bound ensures n % d != 0 {
      if n % d == 0 {
        var q := PrimeDivisorExists(d);
        DividesTrans(q, d, n);
        PrimeAccepted(q, bases[q]);
      }
    }
  }
}

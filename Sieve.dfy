/** `primes_up_to(n)`, the sieve of Eratosthenes over a boolean array. The copies in
    lenstra_elliptic_curve.py and RationalSieve.py are identical; both loop while
    p * p < n, so the list also holds n when n is the square of a prime. */
module Sieve {
  import opened Arith
  import opened Euclid

  /** Some q in [2, bound) with q * q <= k divides k: the entries the sieve has
      crossed out once every q below bound has crossed out its multiples from q * q on. */
  predicate HasFactorBelow(k: int, bound: int) {
    exists q :: 2 <= q < bound && q * q <= k && k % q == 0
  }

  /** n is the square of a prime. */
  predicate IsPrimeSquare(n: nat) {
    IsPrime(Isqrt(n)) && Isqrt(n) * Isqrt(n) == n
  }

  /** The numbers `primes_up_to(n)` lists: the primes up to n, and n itself when it
      is the square of a prime. */
  predicate Listed(n: nat, x: int) {
    0 <= x <= n && (IsPrime(x) || (x == n && IsPrimeSquare(n)))
  }

  predicate StrictlyIncreasing(s: seq<int>) {
    forall i, j :: 0 <= i < j < |s| ==> s[i] < s[j]
  }

  /** `primes_up_to(n)`; n == 0 makes the source index past the end of its array. */
  method PrimesUpTo(n: nat) returns (primes: seq<int>)
    requires n >= 1
    ensures StrictlyIncreasing(primes)
    ensures forall x :: x in primes <==> Listed(n, x)
  {
    var check := new bool[n + 1](_ => true);
    check[0] := false;
    check[1] := false;
    var p := 2;
    while p * p < n
      invariant 2 <= p <= n + 1
      invariant forall k :: 0 <= k <= n ==> check[k] == (k >= 2 && !HasFactorBelow(k, p))
      invariant forall r :: 2 <= r < p ==> r * r < n || !check[r]
      decreases n - p
    {
      var next := p + 1;
      if check[p] {
        CrossOut(check, n, p);
        forall k | 0 <= k <= n ensures check[k] == (k >= 2 && !HasFactorBelow(k, next)) {
          CrossOutStep(k, p, next);
        }
      } else {
        forall k | 0 <= k <= n ensures check[k] == (k >= 2 && !HasFactorBelow(k, next)) {
          CompositeStep(k, p, next);
        }
      }
      var j := NextUnmarked(check, n, p);
      forall t | p < t < j && t <= n ensures HasFactorBelow(t, next) {
        assert !check[t];
      }
      if j > n {
        // No unmarked index is left above p: the source repeats this iteration
        // forever; the model leaves the loop.
        StuckListed(n, p, next);
        break;
      }
      forall k | 0 <= k <= n ensures check[k] == (k >= 2 && !HasFactorBelow(k, j)) {
        SkipStep(k, p, next, j);
      }
      p := j;
    }
    if p * p >= n {
      FinalListed(n, p);
    }
    primes := Collect(check, n);
  }

  /** The loop guard `p**2 < n` stops before p reaches the square root of a prime
      square n, so n is never crossed out: `primes_up_to(4)` lists 4. */
  lemma PrimeSquareListed()
    ensures Listed(4, 4) && !IsPrime(4)
  {
    IsqrtOfSquare(2);
    assert 4 % 2 == 0;
  }

  /** On primes the two sieves agree: only a prime square n is listed in excess. */
  lemma ListedPrime(n: nat, x: int)
    requires IsPrime(x)
    ensures Listed(n, x) <==> x <= n
  {
  }

  /** The sieve with the guard `p**2 <= n` the algorithm calls for: exactly the
      primes up to n. */
  method PrimesUpToFixed(n: nat) returns (primes: seq<int>)
    requires n >= 1
    ensures StrictlyIncreasing(primes)
    ensures forall x :: x in primes <==> 0 <= x <= n && IsPrime(x)
  {
    var check := new bool[n + 1](_ => true);
    check[0] := false;
    check[1] := false;
    var p := 2;
    while p * p <= n
      invariant 2 <= p <= n + 1
      invariant forall k :: 0 <= k <= n ==> check[k] == (k >= 2 && !HasFactorBelow(k, p))
      decreases n - p
    {
      var next := p + 1;
      if check[p] {
        CrossOut(check, n, p);
        forall k | 0 <= k <= n ensures check[k] == (k >= 2 && !HasFactorBelow(k, next)) {
          CrossOutStep(k, p, next);
        }
      } else {
        forall k | 0 <= k <= n ensures check[k] == (k >= 2 && !HasFactorBelow(k, next)) {
          CompositeStep(k, p, next);
        }
      }
      var j := NextUnmarked(check, n, p);
      forall t | p < t < j && t <= n ensures HasFactorBelow(t, next) {
        assert !check[t];
      }
      if j > n {
        StuckPrimes(n, p, next);
        break;
      }
      forall k | 0 <= k <= n ensures check[k] == (k >= 2 && !HasFactorBelow(k, j)) {
        SkipStep(k, p, next, j);
      }
      p := j;
    }
    if p * p > n {
      FinalPrimes(n, p);
    }
    primes := Collect(check, n);
  }

  /** Once p * p > n, the entries left are exactly the primes up to n. */
  lemma FinalPrimes(n: nat, p: int)
    requires 2 <= p && p * p > n
    ensures forall k :: 0 <= k <= n ==> ((k >= 2 && !HasFactorBelow(k, p)) == IsPrime(k))
  {
    forall k | 0 <= k <= n ensures (k >= 2 && !HasFactorBelow(k, p)) == IsPrime(k) {
      if IsPrime(k) {
        PrimeNoFactor(k, p);
      } else if k >= 2 {
        var d := SmallFactor(k);
        SquareLess(d, p);
        assert 2 <= d < p && d * d <= k && k % d == 0;
      }
    }
  }

  /** With no unmarked index left above p, the entries left are exactly the primes. */
  lemma StuckPrimes(n: nat, p: int, next: int)
    requires 2 <= p && next == p + 1
    requires forall t :: p < t <= n ==> HasFactorBelow(t, next)
    ensures forall k :: 0 <= k <= n ==> ((k >= 2 && !HasFactorBelow(k, next)) == IsPrime(k))
  {
    forall k | 0 <= k <= n ensures (k >= 2 && !HasFactorBelow(k, next)) == IsPrime(k) {
      if IsPrime(k) {
        PrimeNoFactor(k, next);
      } else if k >= 2 && k <= p {
        var d := SmallFactor(k);
        MulLe(d, 1, d);
        assert 2 <= d < next && d * d <= k && k % d == 0;
      }
    }
  }

  /** The inner `for i in range(p**2, n+1, p)` loop. */
  method CrossOut(check: array<bool>, n: nat, p: int)
    requires check.Length == n + 1 && p >= 2
    modifies check
    ensures forall k :: 0 <= k <= n ==> check[k] == (old(check[k]) && !(p * p <= k && k % p == 0))
  {
    var square := p * p;
    DivUnique(square, p, p, 0);
    var i := square;
    while i <= n
      invariant square <= i && i % p == 0
      invariant forall k :: 0 <= k <= n ==>
        check[k] == (old(check[k]) && !(square <= k < i && k % p == 0))
      decreases n + p - i
    {
      check[i] := false;
      forall k | 0 <= k <= n
        ensures (square <= k < i + p && k % p == 0) == ((square <= k < i && k % p == 0) || k == i)
      {
        if i < k < i + p {
          NextMultiple(i, k, p);
        }
      }
      NextMultiple(i, i + p, p);
      i := i + p;
    }
  }

  /** The search `for j in range(p+1, n+1)` for the next unmarked index; it returns
      n + 1 when there is none. */
  method NextUnmarked(check: array<bool>, n: nat, p: int) returns (j: int)
    requires check.Length == n + 1 && p >= 0
    ensures p + 1 <= j <= n + 1 || (j == p + 1 && p > n)
    ensures forall t :: p < t < j && t <= n ==> !check[t]
    ensures j <= n ==> check[j]
  {
    j := p + 1;
    while j <= n && !check[j]
      invariant p + 1 <= j
      invariant j <= n + 1 || j == p + 1
      invariant forall t :: p < t < j && t <= n ==> !check[t]
      decreases n + 1 - j
    {
      j := j + 1;
    }
  }

  /** The final `for k in range(n+1)` loop collecting the unmarked indices. */
  method Collect(check: array<bool>, n: nat) returns (primes: seq<int>)
    requires check.Length == n + 1
    ensures StrictlyIncreasing(primes)
    ensures forall x :: x in primes <==> 0 <= x <= n && check[x]
  {
    primes := [];
    for k := 0 to n + 1
      invariant StrictlyIncreasing(primes)
      invariant forall x :: x in primes ==> x < k
      invariant forall x :: x in primes <==> 0 <= x < k && check[x]
    {
      if check[k] {
        AppendIncreasing(primes, k);
        primes := primes + [k];
      }
    }
  }

  lemma AppendIncreasing(s: seq<int>, x: int)
    requires StrictlyIncreasing(s) && forall y :: y in s ==> y < x
    ensures StrictlyIncreasing(s + [x])
  {
    var t := s + [x];
    forall i, j | 0 <= i < j < |t| ensures t[i] < t[j] {
      if j == |s| {
        assert t[i] in s;
      }
    }
  }

  /** The multiples of p after i start at i + p. */
  lemma NextMultiple(i: int, k: int, p: int)
    requires p > 0 && i % p == 0 && i < k <= i + p
    ensures k % p == 0 <==> k == i + p
  {
    var a := i / p;
    DivUnique(i, p, a, 0);
    if k < i + p {
      DivUnique(k, p, a, k - i);
    } else {
      DivUnique(k, p, a + 1, 0);
    }
  }

  /** r divides p and r * r <= p, and p divides k with p * p <= k: r is a factor of
      k of the sieving kind as well. */
  lemma FactorOfFactor(r: int, p: int, k: int)
    requires 2 <= r && r * r <= p && p % r == 0 && p * p <= k && k % p == 0
    ensures r * r <= k && k % r == 0
  {
    DividesTrans(r, p, k);
    MulLe(p, 1, p);
  }

  /** Crossing out the multiples of p from p * p on extends the bound by one. */
  lemma CrossOutStep(k: int, p: int, next: int)
    requires p >= 2 && next == p + 1
    ensures HasFactorBelow(k, next) <==> HasFactorBelow(k, p) || (p * p <= k && k % p == 0)
  {
    if HasFactorBelow(k, next) && !HasFactorBelow(k, p) {
      var q :| 2 <= q < next && q * q <= k && k % q == 0;
      assert q == p;
    }
  }

  /** An index p already crossed out adds no new factor to the bound. */
  lemma CompositeStep(k: int, p: int, next: int)
    requires p >= 2 && next == p + 1 && HasFactorBelow(p, p)
    ensures HasFactorBelow(k, next) <==> HasFactorBelow(k, p)
  {
    CrossOutStep(k, p, next);
    if p * p <= k && k % p == 0 {
      var r :| 2 <= r < p && r * r <= p && p % r == 0;
      FactorOfFactor(r, p, k);
    }
  }

  /** Skipping the crossed-out indices between p and j leaves the bound's effect unchanged. */
  lemma SkipStep(k: int, p: int, next: int, j: int)
    requires 2 <= p < j && next == p + 1
    requires forall t :: p < t < j ==> HasFactorBelow(t, next)
    ensures HasFactorBelow(k, j) <==> HasFactorBelow(k, next)
  {
    if HasFactorBelow(k, j) && !HasFactorBelow(k, next) {
      var q :| 2 <= q < j && q * q <= k && k % q == 0;
      assert HasFactorBelow(q, next);
      var r :| 2 <= r < next && r * r <= q && q % r == 0;
      FactorOfFactor(r, q, k);
    }
  }

  /** A prime has no factor of the sieving kind below any bound. */
  lemma PrimeNoFactor(k: int, bound: int)
    requires IsPrime(k)
    ensures !HasFactorBelow(k, bound)
  {
    if HasFactorBelow(k, bound) {
      var q :| 2 <= q < bound && q * q <= k && k % q == 0;
      MulLe(q, 2, q);
    }
  }

  /** A composite k >= 2 has a divisor d >= 2 with d * d <= k. */
  lemma SmallFactor(k: int) returns (d: int)
    requires k >= 2 && !IsPrime(k)
    ensures 2 <= d && d * d <= k && k % d == 0
  {
    if forall d :: 2 <= d && d * d <= k ==> k % d != 0 {
      NoSmallDivisorIsPrime(k);
    }
    d :| 2 <= d && d * d <= k && k % d == 0;
  }

  lemma SquareLess(a: int, b: int)
    requires 0 <= a && 0 <= b && a * a < b * b
    ensures a < b
  {
    if a >= b {
      MulLe(a, b, a);
      MulLe(b, b, a);
    }
  }

  lemma SquareLessEq(a: int, b: int)
    requires 0 <= a && 0 <= b && a * a <= b * b
    ensures a <= b
  {
    if a > b {
      MulLe(a, b + 1, a);
      MulLe(b + 1, b + 1, a);
    }
  }

  lemma IsqrtOfSquare(d: nat)
    ensures Isqrt(d * d) == d
  {
    var r := Isqrt(d * d);
    SquareLessEq(r, d);
    SquareLess(d, r + 1);
  }

  /** No d in [2, p) with d * d <= r*r divides the square of a prime r >= p. */
  lemma PrimeSquareNoFactor(r: int, p: int)
    requires IsPrime(r) && p <= r
    ensures !HasFactorBelow(r * r, p)
  {
    if HasFactorBelow(r * r, p) {
      var q :| 2 <= q < p && q * q <= r * r && (r * r) % q == 0;
      var s := PrimeDivisorExists(q);
      DividesTrans(s, q, r * r);
      EuclidLemma(s, r, r);
      PrimeDivisors(r, s);
    }
  }

  /** The state left when the loop ends with p * p >= n lists exactly Listed(n, -). */
  lemma FinalListed(n: nat, p: int)
    requires n >= 1 && 2 <= p && p * p >= n
    requires forall r :: 2 <= r < p ==> r * r < n || HasFactorBelow(r, p)
    ensures forall k :: 0 <= k <= n ==> ((k >= 2 && !HasFactorBelow(k, p)) == Listed(n, k))
  {
    forall k | 0 <= k <= n ensures (k >= 2 && !HasFactorBelow(k, p)) == Listed(n, k) {
      if IsPrime(k) {
        PrimeNoFactor(k, p);
      } else if k == n && IsPrimeSquare(n) {
        var r := Isqrt(n);
        PrimeNoFactor(r, p);
        PrimeSquareNoFactor(r, p);
      } else if k >= 2 && !HasFactorBelow(k, p) {
        var d := SmallFactor(k);
        MulLe(p, p, d);
        MulLe(d, p, d);
        assert k == n && d * d == n;
        IsqrtOfSquare(d);
        if !IsPrime(d) {
          var e := SmallFactor(d);
          DividesTrans(e, d, k);
          MulLe(d, 2, d);
          SquareLess(e, p);
        }
      }
    }
  }

  /** The state left when no unmarked index remains above p also lists exactly
      Listed(n, -). */
  lemma StuckListed(n: nat, p: int, next: int)
    requires n >= 1 && 2 <= p && p * p < n && next == p + 1
    requires forall t :: p < t <= n ==> HasFactorBelow(t, next)
    ensures forall k :: 0 <= k <= n ==> ((k >= 2 && !HasFactorBelow(k, next)) == Listed(n, k))
  {
    if IsPrimeSquare(n) {
      var r := Isqrt(n);
      SquareLess(p, r);
      MulLe(r, 1, r);
      PrimeNoFactor(r, next);
    }
    forall k | 0 <= k <= n ensures (k >= 2 && !HasFactorBelow(k, next)) == Listed(n, k) {
      if IsPrime(k) {
        PrimeNoFactor(k, next);
      } else if k >= 2 && k <= p {
        var d := SmallFactor(k);
        MulLe(d, 1, d);
      }
    }
  }
}

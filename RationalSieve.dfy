/** RationalSieve.py: trial-division factorisation, the B-smoothness test, the
    relations z, z + n with both sides B-smooth, and the search over subsets of
    relations for a congruence of squares x^2 == y^2 (mod n). */
module RationalSieve {
  import opened Arith
  import opened Euclid
  import opened Wrappers
  import opened FactorMaps
  import opened Sieve

  // ---------------------------------------------------------------------
  // prime_factors

  /** `prime_factors(number)`: trial division by i = 2, 3, ... while
      i < isqrt(t) + 1, dividing out each factor found; a remaining t > 1 is
      the last prime. The result is the prime factorisation of number. */
  method PrimeFactors(number: nat) returns (f: Factors)
    ensures number <= 1 ==> f == map[]
    ensures number >= 1 ==> f == FactorizationOf(number)
  {
    f := map[];
    var t := number;
    var i := 2;
    while i < Isqrt(t) + 1
      invariant 2 <= i
      invariant number == 0 ==> t == 0 && f == map[]
      invariant number >= 1 ==> t >= 1 && Product(f) * t == number
      invariant forall p :: p in f ==> IsPrime(p) && f[p] >= 1 && p < i
      invariant forall d :: 2 <= d < i ==> t % d != 0
      decreases t - i
    {
      TrialBound(t, i);
      if t % i == 0 {
        TrialDivisorIsPrime(t, i);
        EmptyExponent(f, i);
        f := f[i := 0];
        f, t := DivideOutAll(f, i, t, number);
      }
      i := i + 1;
    }
    if t > 1 {
      LastFactorIsPrime(t, i);
      ProductBump(f, t);
      f := f[t := 1];
    }
    if number >= 1 {
      FactorizationUnique(f, FactorizationOf(number), number);
    }
    if number == 1 {
      ProductEmpty(map[]);
      FactorizationUnique(f, map[], 1);
    }
  }

  /** The inner `while t % i == 0` loop: moves every factor i of t into the
      dictionary entry for i, which starts at 0. */
  method DivideOutAll(f: Factors, i: int, t: int, ghost number: int) returns (f': Factors, t': int)
    requires 2 <= i && t >= 1 && t % i == 0 && Product(f) * t == number
    requires i in f && f[i] == 0
    requires forall p :: p in f ==> IsPrime(p) && p <= i && (p < i ==> f[p] >= 1)
    requires forall d :: 2 <= d < i ==> t % d != 0
    ensures 1 <= t' < t && t' % i != 0 && Product(f') * t' == number
    ensures i in f' && f'[i] >= 1 && f' == f[i := f'[i]]
    ensures forall d :: 2 <= d < i ==> t' % d != 0
  {
    f', t' := f, t;
    while t' % i == 0
      invariant 1 <= t' <= t && Product(f') * t' == number
      invariant i in f' && f' == f[i := f'[i]] && (f'[i] >= 1 || t' == t)
      invariant f'[i] >= 1 ==> t' < t
      invariant forall d :: 2 <= d < i ==> t' % d != 0
      decreases t'
    {
      var q := t' / i;
      DivideOut(f', i, t', q, number);
      f' := f'[i := f'[i] + 1];
      t' := q;
    }
  }

  /** A trial divisor i <= isqrt(t) is at most t. */
  lemma TrialBound(t: nat, i: int)
    requires 2 <= i < Isqrt(t) + 1
    ensures i <= t
  {
    var r := Isqrt(t);
    MulLe(i, i, r);
    MulLe(r, i, r);
    MulAtLeast(i, i);
  }

  /** A divisor i of t found before any smaller one is prime. */
  lemma TrialDivisorIsPrime(t: int, i: int)
    requires 2 <= i && t >= 1 && t % i == 0
    requires forall d :: 2 <= d < i ==> t % d != 0
    ensures IsPrime(i)
  {
    forall d | 2 <= d < i ensures i % d != 0 {
      if i % d == 0 {
        DividesTrans(d, i, t);
      }
    }
  }

  /** Adding a key with exponent 0 leaves the product unchanged. */
  lemma EmptyExponent(f: Factors, i: int)
    requires i !in f
    ensures Product(f[i := 0]) == Product(f)
  {
    ProductRemove(f[i := 0], i);
    assert f[i := 0] - {i} == f;
  }

  /** One step of the inner loop: t == i * q moves one factor i into f. */
  lemma DivideOut(f: Factors, i: int, t: int, q: int, number: int)
    requires i >= 2 && i in f && t % i == 0 && q == t / i && t >= 1
    requires Product(f) * t == number
    requires forall d :: 2 <= d < i ==> t % d != 0
    ensures Product(f[i := f[i] + 1]) * q == number
    ensures 1 <= q < t
    ensures forall d :: 2 <= d < i ==> q % d != 0
  {
    ExactQuotient(t, i, q);
    ProductBump(f, i);
    assert Exp(f, i) == f[i];
    MovedFactor(Product(f), i, q, t, number);
    QuotientNoSmallDivisor(i, t, q);
  }

  lemma ExactQuotient(t: int, i: int, q: int)
    requires t >= 1 && i >= 2 && t % i == 0 && q == t / i
    ensures t == i * q && 1 <= q < t
  {
    assert t == i * q + t % i;
    PositiveFactor(i, q);
    MulAtLeast(q, i);
    assert q * i == q + q * (i - 1);
    MulAtLeast(q, i - 1);
  }

  lemma MovedFactor(p: int, i: int, q: int, t: int, number: int)
    requires p * t == number && t == i * q
    ensures (p * i) * q == number
  {
    Assoc(p, i, q);
  }

  /** A quotient of t has no divisor that t lacks. */
  lemma QuotientNoSmallDivisor(i: int, t: int, q: int)
    requires t == i * q
    requires forall d :: 2 <= d < i ==> t % d != 0
    ensures forall d :: 2 <= d < i ==> q % d != 0
  {
    forall d | 2 <= d < i ensures q % d != 0 {
      if q % d == 0 {
        DividesMul(d, q, i);
      }
    }
  }

  /** After the loop, t > 1 has no divisor below i and i * i > t: t is prime and
      at least i. */
  lemma LastFactorIsPrime(t: int, i: int)
    requires t > 1 && i >= 2 && i >= Isqrt(t) + 1
    requires forall d :: 2 <= d < i ==> t % d != 0
    ensures IsPrime(t) && t >= i
  {
    var r := Isqrt(t);
    var s := r + 1;
    assert t < s * s;
    MulLe(s, s, i);
    MulLe(i, s, i);
    assert s * i == i * s;
    var square := i * i;
    assert t < square;
    forall d | 2 <= d && d * d <= t ensures t % d != 0 {
      SquareLess(d, i);
    }
    NoSmallDivisorIsPrime(t);
    DivUnique(t, t, 1, 0);
  }

  // ---------------------------------------------------------------------
  // is_B_smooth

  /** `max(prime_factors)`: the largest key. */
  function MaxKey(f: Factors): (k: int)
    requires exists j :: j in f
    ensures k in f && forall j :: j in f ==> j <= k
  {
    SetMaxExists(f.Keys);
    var k :| k in f && forall j :: j in f ==> j <= k;
    k
  }

  lemma SetMaxExists(s: set<int>)
    requires exists j :: j in s
    ensures exists k :: k in s && forall j :: j in s ==> j <= k
  {
    var k := SetMax(s);
  }

  lemma {:induction false} SetMax(s: set<int>) returns (k: int)
    requires exists j :: j in s
    ensures k in s && forall j :: j in s ==> j <= k
    decreases |s|
  {
    var a :| a in s;
    var rest := s - {a};
    if exists b :: b in rest {
      var m := SetMax(rest);
      k := if a > m then a else m;
    } else {
      k := a;
    }
    forall j | j in s ensures j <= k {
      if j != a { assert j in rest; }
    }
  }

  /** `is_B_smooth(prime_factors, B)`: the largest key is among the primes up to B
      (listed by the sieve with the corrected guard). */
  method IsBSmooth(f: Factors, B: nat) returns (smooth: bool)
    requires exists j :: j in f
    requires B >= 1
    ensures smooth <==> IsPrime(MaxKey(f)) && MaxKey(f) <= B
  {
    var primes := PrimesUpToFixed(B);
    smooth := MaxKey(f) in primes;
  }

  /** x is B-smooth: no prime factor of x exceeds B. */
  ghost predicate Smooth(x: int, B: int) {
    forall p :: IsPrime(p) && Divides(p, x) ==> p <= B
  }

  /** For the factorisation of x >= 2 the test is exactly B-smoothness of x
      (with the bound B itself allowed). */
  lemma SmoothTest(x: int, B: nat)
    requires x >= 2 && B >= 1
    ensures exists j :: j in FactorizationOf(x)
    ensures IsPrime(MaxKey(FactorizationOf(x))) && MaxKey(FactorizationOf(x)) <= B <==> Smooth(x, B)
  {
    var f := FactorizationOf(x);
    var p := PrimeDivisorExists(x);
    FactorizationKeys(f, x, p);
    var m := MaxKey(f);
    FactorizationKeys(f, x, m);
    forall q | IsPrime(q) && Divides(q, x) ensures q <= m {
      FactorizationKeys(f, x, q);
    }
  }

  /** Trial division followed by the test decides B-smoothness of x >= 2. */
  method SmoothFactors(x: nat, B: nat) returns (f: Factors, smooth: bool)
    requires x >= 2 && B >= 1
    ensures f == FactorizationOf(x)
    ensures smooth <==> Smooth(x, B)
  {
    f := PrimeFactors(x);
    SmoothTest(x, B);
    smooth := IsBSmooth(f, B);
  }

  // ---------------------------------------------------------------------
  // build_relations

  /** A relation: the factorisation of z and that of z + n. */
  datatype Relation = Relation(z: Factors, zn: Factors)

  /** The concatenation f(lo) + f(lo + 1) + ... + f(hi - 1). */
  ghost function Gathered<T>(f: int -> seq<T>, lo: int, hi: int): seq<T>
    decreases hi - lo
  {
    if hi <= lo then [] else Gathered(f, lo, hi - 1) + f(hi - 1)
  }

  /** The relations collected once z = 2 .. hi - 1 have been tried. */
  ghost function RelationsBelow(n: int, B: nat, hi: int): seq<Relation> {
    Gathered(z => RelationOf(n, B, z), 2, hi)
  }

  /** The relation contributed by z in [2, n), if any. */
  ghost function RelationOf(n: int, B: nat, z: int): seq<Relation> {
    if 2 <= z < n && Smooth(z, B) && Smooth(n + z, B)
    then [Relation(FactorizationOf(z), FactorizationOf(n + z))]
    else []
  }

  /** The relations for n and bound B: every z in [2, n) with z and z + n both
      B-smooth, in increasing order of z. */
  ghost function Relations(n: int, B: nat): seq<Relation> {
    if n < 2 then [] else RelationsBelow(n, B, n)
  }

  /** `build_relations(n, B)`. */
  method BuildRelations(n: int, B: nat) returns (rels: seq<Relation>)
    requires B >= 1 || n <= 2
    ensures rels == Relations(n, B)
  {
    rels := [];
    var z := 2;
    while z < n
      invariant 2 <= z && (z <= n || z == 2)
      invariant rels == RelationsBelow(n, B, z)
      decreases n - z
    {
      var found := RelationFor(n, B, z);
      RelationsBelowStep(n, B, z);
      rels := rels + found;
      z := z + 1;
    }
  }

  lemma RelationsBelowStep(n: int, B: nat, z: int)
    requires z >= 2
    ensures RelationsBelow(n, B, z + 1) == RelationsBelow(n, B, z) + RelationOf(n, B, z)
  {
    var f := z => RelationOf(n, B, z);
    assert Gathered(f, 2, z + 1) == Gathered(f, 2, z) + f(z);
  }

  /** One iteration of the loop of `build_relations`: the relation of z, if both
      z and z + n are B-smooth. */
  method RelationFor(n: int, B: nat, z: int) returns (found: seq<Relation>)
    requires B >= 1 && 2 <= z < n
    ensures found == RelationOf(n, B, z)
  {
    found := [];
    var zf, smooth := SmoothFactors(z, B);
    if smooth {
      var znf, smooth' := SmoothFactors(n + z, B);
      if smooth' {
        found := [Relation(zf, znf)];
      }
    }
  }

  /** r is the relation of z: z and z + n are B-smooth and r holds their
      factorisations. */
  ghost predicate RelationAt(r: Relation, n: int, B: nat, z: int)
    requires 2 <= z < n
  {
    Smooth(z, B) && Smooth(n + z, B) && r == Relation(FactorizationOf(z), FactorizationOf(n + z))
  }

  /** r is the relation of some z in [2, n). */
  ghost predicate IsRelationOf(r: Relation, n: int, B: nat) {
    exists z :: 2 <= z < n && RelationAt(r, n, B, z)
  }

  /** An element gathered from lo .. hi - 1 comes from some f(z). */
  lemma {:induction false} GatheredSource<T>(f: int -> seq<T>, lo: int, hi: int, x: T) returns (z: int)
    requires x in Gathered(f, lo, hi)
    ensures lo <= z < hi && x in f(z)
    decreases hi - lo
  {
    if x in f(hi - 1) {
      z := hi - 1;
    } else {
      z := GatheredSource(f, lo, hi - 1, x);
    }
  }

  /** Every element of f(z), lo <= z < hi, is gathered. */
  lemma {:induction false} GatheredListed<T>(f: int -> seq<T>, lo: int, hi: int, z: int, x: T)
    requires lo <= z < hi && x in f(z)
    ensures x in Gathered(f, lo, hi)
    decreases hi - lo
  {
    var front, back := Gathered(f, lo, hi - 1), f(hi - 1);
    if z < hi - 1 {
      GatheredListed(f, lo, hi - 1, z, x);
    }
    InConcat(front, back, x);
  }

  lemma InConcat<T>(front: seq<T>, back: seq<T>, x: T)
    ensures x in front || x in back ==> x in front + back
  {
    if x in front {
      var i :| 0 <= i < |front| && front[i] == x;
      assert (front + back)[i] == x;
    } else if x in back {
      var i :| 0 <= i < |back| && back[i] == x;
      assert (front + back)[|front| + i] == x;
    }
  }

  /** The gathered elements are exactly those of f(lo), ..., f(hi - 1). */
  lemma GatheredExact<T>(f: int -> seq<T>, lo: int, hi: int, x: T)
    ensures x in Gathered(f, lo, hi) <==> exists z :: lo <= z < hi && x in f(z)
  {
    if x in Gathered(f, lo, hi) {
      var z := GatheredSource(f, lo, hi, x);
    }
    if exists z :: lo <= z < hi && x in f(z) {
      var z :| lo <= z < hi && x in f(z);
      GatheredListed(f, lo, hi, z, x);
    }
  }

  lemma RelationOfAt(r: Relation, n: int, B: nat, z: int)
    requires 2 <= z < n
    ensures r in RelationOf(n, B, z) <==> RelationAt(r, n, B, z)
  {
  }

  lemma RelationsExact(n: int, B: nat, r: Relation)
    ensures r in Relations(n, B) <==> IsRelationOf(r, n, B)
  {
    if n >= 2 {
      var f := z => RelationOf(n, B, z);
      GatheredExact(f, 2, n, r);
      forall z | 2 <= z < n ensures r in f(z) <==> RelationAt(r, n, B, z) {
        RelationOfAt(r, n, B, z);
      }
    }
  }

  /** Each relation stands for z and z + n. */
  ghost predicate Related(r: Relation, n: int) {
    Product(r.zn) == Product(r.z) + n
  }

  lemma RelationsRelated(n: int, B: nat)
    ensures forall r :: r in Relations(n, B) ==> Related(r, n)
  {
    forall r | r in Relations(n, B) ensures Related(r, n) {
      RelationsExact(n, B, r);
    }
  }

  // ---------------------------------------------------------------------
  // prime_multiply, is_even and the subset search

  /** `prime_multiply(n_factors, m_factors)`: the union `n_factors | m_factors`
      (values of m_factors win), then the sum for keys present in both. */
  method PrimeMultiply(f: Factors, g: Factors) returns (r: Factors)
    ensures r == Merge(f, g)
  {
    r := f + g;
    var todo := r.Keys;
    while exists k :: k in todo
      invariant todo <= r.Keys && r.Keys == f.Keys + g.Keys
      invariant forall k :: k in r ==> r[k] == if k in todo then (f + g)[k] else Exp(f, k) + Exp(g, k)
      decreases |todo|
    {
      var key :| key in todo;
      if key in f && key in g {
        r := r[key := f[key] + g[key]];
      }
      todo := todo - {key};
    }
    MergeEqual(r, f, g);
  }

  lemma MergeEqual(r: Factors, f: Factors, g: Factors)
    requires r.Keys == f.Keys + g.Keys
    requires forall k :: k in r ==> r[k] == Exp(f, k) + Exp(g, k)
    ensures r == Merge(f, g)
  {
  }

  /** `is_even(factor_dict)`: False at the first odd exponent, else True. */
  method EvenExponents(f: Factors) returns (even: bool)
    ensures even <==> IsEven(f)
  {
    var todo := f.Keys;
    while exists k :: k in todo
      invariant todo <= f.Keys
      invariant forall k :: k in f && k !in todo ==> f[k] % 2 == 0
      decreases |todo|
    {
      var factor :| factor in todo;
      if f[factor] % 2 != 0 {
        return false;
      }
      todo := todo - {factor};
    }
    return true;
  }

  /** The x (or y) of the search: the product of prime^(exponent // 2). */
  method HalfProduct(f: Factors) returns (x: int)
    ensures x == Product(Halve(f))
  {
    x := 1;
    var g := f;
    while exists k :: k in g
      invariant x * Product(Halve(g)) == Product(Halve(f))
      decreases |g.Keys|
    {
      var k :| k in g;
      ProductRemove(Halve(g), k);
      assert Halve(g) - {k} == Halve(g - {k});
      Assoc(x, Pow(k, g[k] / 2), Product(Halve(g - {k})));
      x := x * Pow(k, g[k] / 2);
      g := g - {k};
    }
    ProductEmpty(Halve(g));
  }

  /** A subset of relations, as the indices `itertools.combinations` yields. */
  predicate IsSubset(rels: seq<Relation>, c: seq<nat>) {
    |c| >= 1 && forall i :: 0 <= i < |c| ==> c[i] < |rels|
  }

  /** The relation of a subset: the z sides multiplied together, and the z + n sides. */
  function Merged(rels: seq<Relation>, c: seq<nat>): Relation
    requires IsSubset(rels, c)
  {
    MergedUpTo(rels, c, |c|)
  }

  /** The relation of the first j indices of the subset. */
  function MergedUpTo(rels: seq<Relation>, c: seq<nat>, j: int): Relation
    requires IsSubset(rels, c) && 1 <= j <= |c|
    decreases j
  {
    if j == 1 then rels[c[0]]
    else
      var prev := MergedUpTo(rels, c, j - 1);
      var last := rels[c[j - 1]];
      Relation(Merge(prev.z, last.z), Merge(prev.zn, last.zn))
  }

  /** The `current_relation` of one subset, built by repeated prime_multiply. */
  method MergeSubset(rels: seq<Relation>, c: seq<nat>) returns (r: Relation)
    requires IsSubset(rels, c)
    ensures r == Merged(rels, c)
  {
    r := rels[c[0]];
    for j := 1 to |c|
      invariant r == MergedUpTo(rels, c, j)
    {
      var z := PrimeMultiply(r.z, rels[c[j]].z);
      var zn := PrimeMultiply(r.zn, rels[c[j]].zn);
      r := Relation(z, zn);
    }
  }

  /** A proper factor from gcd(v, n), or None when the gcd is 1 or n. */
  function ProperGcd(v: int, n: int): Option<int> {
    var p := Gcd(v, n);
    if p != 1 && p != n then Some(p) else None
  }

  /** What one subset yields: for even exponents on both sides, gcd(x - y, n)
      is tried before gcd(x + y, n). */
  ghost function Outcome(rels: seq<Relation>, c: seq<nat>, n: int): Option<int> {
    if !IsSubset(rels, c) then None
    else
      var r := Merged(rels, c);
      if IsEven(r.z) && IsEven(r.zn) then
        Yield(Product(Halve(r.z)), Product(Halve(r.zn)), n)
      else None
  }

  /** gcd(x - y, n) if it is proper, else gcd(x + y, n) if that is. */
  function Yield(x: int, y: int, n: int): Option<int> {
    if ProperGcd(x - y, n).Some? then ProperGcd(x - y, n) else ProperGcd(x + y, n)
  }

  /** The outcome of the first subset in cs that yields a factor. */
  ghost function FirstYield(rels: seq<Relation>, n: int, cs: seq<seq<nat>>): Option<int>
    decreases |cs|
  {
    if |cs| == 0 then None
    else if Outcome(rels, cs[0], n).Some? then Outcome(rels, cs[0], n)
    else FirstYield(rels, n, cs[1..])
  }

  /** The index lists of `itertools.combinations(range(start, m), size)`, in its
      (lexicographic) order. */
  function Combinations(start: nat, m: nat, size: nat): seq<seq<nat>>
    decreases m - start, size
  {
    if size == 0 then [[]]
    else if start >= m then []
    else Prefixed(start, Combinations(start + 1, m, size - 1)) + Combinations(start + 1, m, size)
  }

  function Prefixed(x: nat, cs: seq<seq<nat>>): (r: seq<seq<nat>>)
    ensures |r| == |cs| && forall i :: 0 <= i < |cs| ==> r[i] == [x] + cs[i]
  {
    seq(|cs|, i requires 0 <= i < |cs| => [x] + cs[i])
  }

  predicate Increasing(c: seq<nat>) {
    forall i, j :: 0 <= i < j < |c| ==> c[i] < c[j]
  }

  /** c is a combination of `size` indices from [start, m). */
  predicate IsCombination(c: seq<nat>, start: nat, m: nat, size: nat) {
    |c| == size && Increasing(c) && forall i :: 0 <= i < |c| ==> start <= c[i] < m
  }

  /** Combinations yields combinations only ... */
  lemma {:induction false} CombinationsSound(start: nat, m: nat, size: nat, c: seq<nat>)
    requires c in Combinations(start, m, size)
    ensures IsCombination(c, start, m, size)
    decreases m - start, size
  {
    if size > 0 && start < m {
      var head := Prefixed(start, Combinations(start + 1, m, size - 1));
      if c in head {
        var i :| 0 <= i < |head| && head[i] == c;
        var d := Combinations(start + 1, m, size - 1)[i];
        CombinationsSound(start + 1, m, size - 1, d);
        PrefixCombination(start, m, size, d, c);
      } else {
        CombinationsSound(start + 1, m, size, c);
      }
    }
  }

  lemma PrefixCombination(start: nat, m: nat, size: nat, d: seq<nat>, c: seq<nat>)
    requires size >= 1 && start < m && IsCombination(d, start + 1, m, size - 1) && c == [start] + d
    ensures IsCombination(c, start, m, size)
  {
    assert forall k :: 1 <= k < |c| ==> c[k] == d[k - 1];
  }

  /** ... and every combination. */
  lemma {:induction false} CombinationsComplete(start: nat, m: nat, size: nat, c: seq<nat>)
    requires IsCombination(c, start, m, size)
    ensures c in Combinations(start, m, size)
    decreases m - start, size
  {
    if size == 0 {
      assert c == [];
    } else {
      var head := Prefixed(start, Combinations(start + 1, m, size - 1));
      var rest := Combinations(start + 1, m, size);
      assert start < m && Combinations(start, m, size) == head + rest;
      if c[0] == start {
        var d := DropHead(c, start, m, size);
        CombinationsComplete(start + 1, m, size - 1, d);
        InPrefixed(start, Combinations(start + 1, m, size - 1), d);
      } else {
        SkipStart(c, start, m, size);
        CombinationsComplete(start + 1, m, size, c);
      }
      InConcat(head, rest, c);
    }
  }

  /** A combination starting at `start` is `start` followed by one from start + 1. */
  lemma DropHead(c: seq<nat>, start: nat, m: nat, size: nat) returns (d: seq<nat>)
    requires IsCombination(c, start, m, size) && size > 0 && c[0] == start
    ensures IsCombination(d, start + 1, m, size - 1) && c == [start] + d
  {
    d := c[1..];
    forall i | 0 <= i < |d| ensures start + 1 <= d[i] < m {
      assert d[i] == c[i + 1];
    }
    assert c == [c[0]] + d;
  }

  /** A combination not starting at `start` draws from start + 1 on. */
  lemma SkipStart(c: seq<nat>, start: nat, m: nat, size: nat)
    requires IsCombination(c, start, m, size) && size > 0 && c[0] != start
    ensures IsCombination(c, start + 1, m, size)
  {
    forall i | 0 <= i < |c| ensures start + 1 <= c[i] {
      if i > 0 { assert c[0] < c[i]; }
    }
  }

  lemma InPrefixed(x: nat, cs: seq<seq<nat>>, d: seq<nat>)
    requires d in cs
    ensures [x] + d in Prefixed(x, cs)
  {
    var i :| 0 <= i < |cs| && cs[i] == d;
    assert Prefixed(x, cs)[i] == [x] + d;
  }

  /** All subsets of sizes L .. m, by size and then in `itertools` order. */
  function Batches(m: nat, size: nat): seq<seq<nat>>
    decreases m + 1 - size
  {
    if size > m then [] else Combinations(0, m, size) + Batches(m, size + 1)
  }

  /** The subsets `rational_sieve` tries, in its order (L = 1 .. m). */
  function AllSubsets(m: nat): seq<seq<nat>> {
    Batches(m, 1)
  }

  lemma {:induction false} BatchesExact(m: nat, size: nat, c: seq<nat>)
    ensures c in Batches(m, size) <==> size <= |c| && IsCombination(c, 0, m, |c|)
    decreases m + 1 - size
  {
    if size <= m {
      var here, later := Combinations(0, m, size), Batches(m, size + 1);
      assert Batches(m, size) == here + later;
      BatchesExact(m, size + 1, c);
      if c in here {
        CombinationsSound(0, m, size, c);
      }
      if |c| == size && IsCombination(c, 0, m, size) {
        CombinationsComplete(0, m, size, c);
      }
    } else if IsCombination(c, 0, m, |c|) {
      PigeonIndices(c, m);
    }
  }

  /** More than m increasing indices cannot all lie below m. */
  lemma {:induction false} PigeonIndices(c: seq<nat>, m: nat)
    requires Increasing(c) && forall i :: 0 <= i < |c| ==> c[i] < m
    ensures |c| <= m
    decreases |c|
  {
    if |c| > 0 {
      var d := c[..|c| - 1];
      assert forall i :: 0 <= i < |d| ==> d[i] < c[|c| - 1];
      PigeonIndices(d, c[|c| - 1]);
    }
  }

  /** The subsets tried are exactly the non-empty increasing index lists. */
  lemma AllSubsetsExact(m: nat, c: seq<nat>)
    ensures c in AllSubsets(m) <==> |c| >= 1 && IsCombination(c, 0, m, |c|)
  {
    BatchesExact(m, 1, c);
  }

  /** The first yield over a concatenation. */
  lemma {:induction false} FirstYieldAppend(rels: seq<Relation>, n: int, a: seq<seq<nat>>, b: seq<seq<nat>>)
    ensures FirstYield(rels, n, a + b) ==
      if FirstYield(rels, n, a).Some? then FirstYield(rels, n, a) else FirstYield(rels, n, b)
    decreases |a|
  {
    if |a| == 0 {
      assert a + b == b;
    } else {
      assert (a + b)[0] == a[0];
      assert (a + b)[1..] == a[1..] + b;
      FirstYieldAppend(rels, n, a[1..], b);
    }
  }

  /** The body of the subset loop: merge the subset, and for even exponents on
      both sides try gcd(x - y, n), then gcd(x + y, n). */
  method TrySubset(rels: seq<Relation>, c: seq<nat>, n: int) returns (outcome: Option<int>)
    requires IsSubset(rels, c)
    ensures outcome == Outcome(rels, c, n)
  {
    var r := MergeSubset(rels, c);
    outcome := None;
    var even := EvenExponents(r.z);
    if even {
      even := EvenExponents(r.zn);
    }
    if even {
      var x := HalfProduct(r.z);
      var y := HalfProduct(r.zn);
      outcome := TryGcds(x, y, n);
    }
  }

  /** The two gcd attempts of one subset. */
  method TryGcds(x: int, y: int, n: int) returns (outcome: Option<int>)
    ensures outcome == Yield(x, y, n)
  {
    var p := Gcd(x - y, n);
    if p != 1 && p != n {
      return Some(p);
    }
    p := Gcd(x + y, n);
    if p != 1 && p != n {
      return Some(p);
    }
    return None;
  }

  /** `rational_sieve(n, B)`: the first subset of relations, by size and then in
      `itertools.combinations` order, whose squares give a proper gcd; None when
      there is none. */
  method RationalSieve(n: int, B: nat) returns (factor: Option<int>)
    requires B >= 1 || n <= 2
    ensures factor == FirstYield(Relations(n, B), n, AllSubsets(|Relations(n, B)|))
  {
    var rels := BuildRelations(n, B);
    var m := |rels|;
    for size := 1 to m + 1
      invariant FirstYield(rels, n, AllSubsets(m)) == FirstYield(rels, n, Batches(m, size))
    {
      var cs := Combinations(0, m, size);
      assert Batches(m, size) == cs + Batches(m, size + 1);
      FirstYieldAppend(rels, n, cs, Batches(m, size + 1));
      for j := 0 to |cs|
        invariant FirstYield(rels, n, cs) == FirstYield(rels, n, cs[j..])
      {
        var c := cs[j];
        assert cs[j..][1..] == cs[j + 1..];
        CombinationsSound(0, m, size, c);
        var outcome := TrySubset(rels, c, n);
        if outcome.Some? {
          return outcome;
        }
      }
    }
    return None;
  }

  // ---------------------------------------------------------------------
  // What the search establishes

  /** A yielded gcd is a proper factor of n. */
  lemma ProperGcdIsFactor(v: int, n: int)
    requires n >= 1 && ProperGcd(v, n).Some?
    ensures 1 < ProperGcd(v, n).value < n && n % ProperGcd(v, n).value == 0
  {
    GcdBounds(v, n);
    GcdDivides(v, n);
  }

  lemma OutcomeIsFactor(rels: seq<Relation>, c: seq<nat>, n: int)
    requires n >= 1 && Outcome(rels, c, n).Some?
    ensures 1 < Outcome(rels, c, n).value < n && n % Outcome(rels, c, n).value == 0
  {
    var r := Merged(rels, c);
    var x, y := Product(Halve(r.z)), Product(Halve(r.zn));
    assert Outcome(rels, c, n) == Yield(x, y, n);
    YieldIsFactor(x, y, n);
  }

  lemma YieldIsFactor(x: int, y: int, n: int)
    requires n >= 1 && Yield(x, y, n).Some?
    ensures 1 < Yield(x, y, n).value < n && n % Yield(x, y, n).value == 0
  {
    if ProperGcd(x - y, n).Some? {
      ProperGcdIsFactor(x - y, n);
    } else {
      ProperGcdIsFactor(x + y, n);
    }
  }

  /** FirstYield is the outcome of the first subset that yields anything. */
  lemma FirstYieldIsFirst(rels: seq<Relation>, n: int, cs: seq<seq<nat>>)
    ensures FirstYield(rels, n, cs).None? <==> forall i :: 0 <= i < |cs| ==> Outcome(rels, cs[i], n).None?
    ensures FirstYield(rels, n, cs).Some? ==>
      exists i :: 0 <= i < |cs| && Outcome(rels, cs[i], n) == FirstYield(rels, n, cs) &&
        forall k :: 0 <= k < i ==> Outcome(rels, cs[k], n).None?
  {
    if FirstYield(rels, n, cs).Some? {
      var i := FirstYieldAt(rels, n, cs);
    } else {
      NoneYieldsNone(rels, n, cs);
    }
  }

  /** The position of the subset whose outcome FirstYield returns. */
  lemma {:induction false} FirstYieldAt(rels: seq<Relation>, n: int, cs: seq<seq<nat>>) returns (i: int)
    requires FirstYield(rels, n, cs).Some?
    ensures 0 <= i < |cs| && Outcome(rels, cs[i], n) == FirstYield(rels, n, cs)
    ensures forall k :: 0 <= k < i ==> Outcome(rels, cs[k], n).None?
    decreases |cs|
  {
    if Outcome(rels, cs[0], n).Some? {
      i := 0;
    } else {
      var j := FirstYieldAt(rels, n, cs[1..]);
      i := j + 1;
      forall k | 0 <= k < i ensures Outcome(rels, cs[k], n).None? {
        if k > 0 {
          assert cs[k] == cs[1..][k - 1];
        }
      }
    }
  }

  /** With no yield from FirstYield, no subset yields. */
  lemma {:induction false} NoneYieldsNone(rels: seq<Relation>, n: int, cs: seq<seq<nat>>)
    requires FirstYield(rels, n, cs).None?
    ensures forall i :: 0 <= i < |cs| ==> Outcome(rels, cs[i], n).None?
    decreases |cs|
  {
    if |cs| > 0 {
      NoneYieldsNone(rels, n, cs[1..]);
      forall i | 1 <= i < |cs| ensures Outcome(rels, cs[i], n).None? {
        assert cs[i] == cs[1..][i - 1];
      }
    }
  }

  /** A factor found by the search is a proper factor of n. */
  lemma FoundFactorIsProper(rels: seq<Relation>, n: int, cs: seq<seq<nat>>)
    requires n >= 1 && FirstYield(rels, n, cs).Some?
    ensures 1 < FirstYield(rels, n, cs).value < n && n % FirstYield(rels, n, cs).value == 0
  {
    FirstYieldIsFirst(rels, n, cs);
    var i :| 0 <= i < |cs| && Outcome(rels, cs[i], n) == FirstYield(rels, n, cs) &&
      forall k :: 0 <= k < i ==> Outcome(rels, cs[k], n).None?;
    OutcomeIsFactor(rels, cs[i], n);
  }

  /** No factor found means that no non-empty subset of the relations yields one. */
  lemma NothingFound(rels: seq<Relation>, n: int, c: seq<nat>)
    requires FirstYield(rels, n, AllSubsets(|rels|)).None?
    requires |c| >= 1 && IsCombination(c, 0, |rels|, |c|)
    ensures Outcome(rels, c, n).None?
  {
    AllSubsetsExact(|rels|, c);
    FirstYieldIsFirst(rels, n, AllSubsets(|rels|));
    var cs := AllSubsets(|rels|);
    var i :| 0 <= i < |cs| && cs[i] == c;
  }

  /** Multiplying relations together keeps the two sides congruent mod n. */
  lemma MergedCongruent(rels: seq<Relation>, c: seq<nat>, n: int)
    requires n >= 1 && IsSubset(rels, c)
    requires forall r :: r in rels ==> Related(r, n)
    ensures Cong(Product(Merged(rels, c).zn), Product(Merged(rels, c).z), n)
  {
    MergedUpToCongruent(rels, c, n, |c|);
  }

  lemma {:induction false} MergedUpToCongruent(rels: seq<Relation>, c: seq<nat>, n: int, j: int)
    requires n >= 1 && IsSubset(rels, c) && 1 <= j <= |c|
    requires forall r :: r in rels ==> Related(r, n)
    ensures Cong(Product(MergedUpTo(rels, c, j).zn), Product(MergedUpTo(rels, c, j).z), n)
    decreases j
  {
    DivUnique(n, n, 1, 0);
    if j == 1 {
      var r := rels[c[0]];
      assert r in rels;
      assert Product(r.zn) - Product(r.z) == n;
    } else {
      var prev := MergedUpTo(rels, c, j - 1);
      var last := rels[c[j - 1]];
      assert last in rels;
      MergedUpToCongruent(rels, c, n, j - 1);
      assert Product(last.zn) - Product(last.z) == n;
      CongMul(Product(prev.zn), Product(prev.z), Product(last.zn), Product(last.z), n);
      ProductMerge(prev.zn, last.zn);
      ProductMerge(prev.z, last.z);
    }
  }

  /** The congruence of squares behind every gcd the search takes:
      x^2 == y^2 (mod n) for a subset whose exponents are all even. */
  lemma SquaresCongruent(rels: seq<Relation>, c: seq<nat>, n: int)
    requires n >= 1 && IsSubset(rels, c)
    requires forall r :: r in rels ==> Related(r, n)
    requires IsEven(Merged(rels, c).z) && IsEven(Merged(rels, c).zn)
    ensures Cong(Product(Halve(Merged(rels, c).zn)) * Product(Halve(Merged(rels, c).zn)),
                 Product(Halve(Merged(rels, c).z)) * Product(Halve(Merged(rels, c).z)), n)
  {
    var r := Merged(rels, c);
    MergedCongruent(rels, c, n);
    EvenIsSquare(r.z);
    EvenIsSquare(r.zn);
  }
}

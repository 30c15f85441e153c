# Factorization algorithms, modelled in Dafny

This project models the exact integer and combinatorial core of the Python
repository *Factorization-Algorithms*, and proves properties of it. The core has
four groups of code:

- **Lenstra's elliptic-curve method** (`lenstra_elliptic_curve.py`):
  - the boolean-array sieve `primes_up_to`;
  - the extended Euclidean algorithm `egcd` and the two modular inverses
    `mod_inverse2` and `mod_inverse`;
  - point addition `elliptic_add` on y² = x³ + ax + b over ℤ/mℤ. It either
    succeeds or reports the denominator it could not invert;
  - the double-and-add `elliptic_multiply`;
  - the curve set-up arithmetic inside `lenstra`.
- **Quadratic sieve helpers** (`quadratic_sieve.py`):
  - the Legendre symbol by Euler's criterion;
  - the 2-adic and 3-adic valuations;
  - Russian-peasant modular multiplication `mod_mul`;
  - the factor base, the prime-to-column map and the exponent-parity matrix;
  - Gaussian elimination over GF(2) (`ge_gf2`, `solve_row`);
  - the final combination of a null-space vector into gcd(LHS − RHS, n).
- **The rational sieve** (`RationalSieve.py`):
  - trial-division `prime_factors`;
  - the dictionary helpers `is_B_smooth`, `is_even` and `prime_multiply`;
  - `build_relations`;
  - the search `rational_sieve` over all subsets of relations for a
    congruence of squares.
- **The Miller–Rabin variant**, present in three files with identical bodies
  (`NaiveFactorize.py`, `MillerRabinPrimalityTest.py`,
  `Miller_Rabin_primality_test.py`), and `naive_factorize`.

## Modules

| Module | Contents |
|---|---|
| `Arith` | Divisibility, congruence, powers, gcds, primality and the integer square root. |
| `Bits` | Powers of two, the 2-adic valuation, the lowest set bit, exact log₂. |
| `Fermat` | The binomial theorem, then Fermat's little theorem. It also shows that ±1 are the only square roots of 1 modulo a prime. |
| `Euclid` | Python's floor division, `egcd`, `mod_inverse2` and `mod_inverse` (Bézout, uniqueness of the inverse). |
| `Sieve` | `primes_up_to` exactly as written (shared by `lenstra_elliptic_curve.py` and `RationalSieve.py`), and a corrected copy. |
| `EllipticCurve` | Points, `elliptic_add`, `elliptic_multiply` and the curve set-up in `lenstra`. |
| `MillerRabin` | The Miller–Rabin test and `naive_factorize`. |
| `FactorMaps` | Prime→exponent maps: their product, merging, halving, unique factorisation. |
| `RationalSieve` | `prime_factors` … `rational_sieve`. |
| `QuadraticSieve` | `legendre`, `extract2`, `extract3`, `mod_mul`. |
| `QsMatrix` | `get_factor_base`, `prime_to_index`, `build_r_matrix`. |
| `GaussGf2` | `ge_gf2` on a two-dimensional array, and `solve_row`. |
| `QsCombine` | The LHS/RHS combination at the end of `quadratic_sieve`. |
| `Wrappers` | `Option`. |

### Modelling conventions

- Python's `%` and `//` with a positive divisor agree with Dafny's Euclidean
  `%` and `/`. Every modulus in the core is positive. The one place where a
  divisor can be negative, the recursion of `egcd`, uses `FloorDiv` and
  `FloorMod`, which round as Python does.
- Python's bitwise `m & ~(m - 1)` on m > 0 is modelled bit by bit (`AndNot`).
- Exceptions become results:
  - a `ValueError` becomes `None`, as in `mod_inverse`, `mod_inverse2`,
    `legendre` and `get_factor_base`;
  - the failed addition of `elliptic_add` and `elliptic_multiply` becomes
    `Fail(culprit)`.
- Python `assert`s and the dictionary look-ups that raise `KeyError` become
  preconditions.
- Random draws become parameters: the ten Miller–Rabin bases, and `x0`, `y0`
  and `a` of the curve set-up.
- `int(math.log(k, 2))` of a power of two is the exact exponent `Log2`, and
  `math.floor(math.sqrt(n))` is the exact `Isqrt`.
- The model follows the source's form:
  - loops that update fields or arrays are methods with loop invariants, each
    proved equal to a specification function;
  - `egcd`, `elliptic_add` and `legendre` are functions.
- `elliptic_multiply`'s loop is proved equal to the recursive double-and-add
  function `Ladder`.

## Model

| member | source | states |
|---|---|---|
| Sieve.PrimesUpTo | lenstra_elliptic_curve.py:62-84 | The list is strictly increasing. x occurs in it iff x is a prime ≤ n, or x = n and n is the square of a prime (the `p**2 < n` guard). The copy at RationalSieve.py:28-50 is identical. |
| Sieve.CrossOut | lenstra_elliptic_curve.py:71-73 | Exactly the multiples of p from p² to n are crossed out; every other entry is unchanged. |
| Sieve.NextUnmarked | lenstra_elliptic_curve.py:75-78 | Returns the first unmarked index after p, or n + 1 when there is none. Every index skipped is crossed out. |
| Sieve.Collect | lenstra_elliptic_curve.py:80-82 | The collected list is increasing and holds exactly the unmarked indices. |
| Sieve.PrimeSquareListed | lenstra_elliptic_curve.py:69 | For n = 4 the list holds 4, which is not prime. |
| Sieve.PrimesUpToFixed | lenstra_elliptic_curve.py:69 | With the guard `p * p <= n` the list is increasing and holds exactly the primes ≤ n. |
| Sieve.ListedPrime | RationalSieve.py:87 | A prime is listed by the sieve as written iff it is ≤ n, so both sieves agree on primes. |
| Euclid.FloorMod | lenstra_elliptic_curve.py:125-126 | Python's `b % a` and `b // a`: b = a·(b // a) + b % a, with the remainder in [0, a) for a > 0 and in (a, 0] for a < 0. |
| Euclid.Egcd | lenstra_elliptic_curve.py:121-126 | a·x + b·y = g for all integers a and b, with Python's floor `//` and `%`. When a, b ≥ 0, g is the gcd. |
| Euclid.GcdStep | lenstra_elliptic_curve.py:125 | b = a·q + r leaves the gcd unchanged: gcd(r, a) = gcd(a, b). |
| Euclid.EgcdIsGcd | lenstra_elliptic_curve.py:121-126 | g is b when a = 0, gcd(a, b) when a > 0, and −gcd(a, b) when a < 0. |
| Euclid.Bezout | lenstra_elliptic_curve.py:121-126 | Bézout coefficients of gcd(a, b) exist for all integers a and b. |
| Euclid.ModInverse2 | lenstra_elliptic_curve.py:128-133 | For a ≥ 0 it fails exactly when gcd(a, m) ≠ 1. It fails for every a < 0. A result x lies in [0, m) with a·x ≡ 1 (mod m). |
| Euclid.NegativeBaseRejected | lenstra_elliptic_curve.py:121-133 | `egcd(-3, 7)` gives g = −1, so `mod_inverse2(-3, 7)` raises, while `pow(-3, -1, 7)` is 2. |
| Euclid.InverseSearch | lenstra_elliptic_curve.py:113-115 | A result is an inverse of a in [from, m). None means that no y in [from, m) is one. |
| Euclid.InverseMeansCoprime | lenstra_elliptic_curve.py:105-107 | A number with an inverse modulo m is coprime to m. |
| Euclid.ModInverse | lenstra_elliptic_curve.py:113-115 | `pow(a, -1, m)` fails exactly when gcd(a, m) ≠ 1, for every integer a. Otherwise it returns x in [0, m) with a·x ≡ 1 (mod m). |
| Euclid.ModInverseIsLeast | lenstra_elliptic_curve.py:113-115 | `pow(a, -1, m)` is the inverse found by trying 0, 1, …, m − 1 in turn. |
| Euclid.InverseUnique | lenstra_elliptic_curve.py:105-107 | An inverse modulo m in [0, m) is unique. |
| Euclid.ModInversesAgree | lenstra_elliptic_curve.py:113-133 | The two inverse routines return the same result for every a ≥ 0. |
| EllipticCurve.OnCurveMeaning | lenstra_elliptic_curve.py:207-208 | The reduced test of the asserts is the congruence y² ≡ x³ + ax + b (mod m). |
| EllipticCurve.Add | lenstra_elliptic_curve.py:184-258 | A failure reports a culprit in [0, m) that shares a factor with m. A success is a point on the curve, and it is reduced when both inputs are. |
| EllipticCurve.AddIdentity | lenstra_elliptic_curve.py:189-199 | The point at infinity is a two-sided identity: the other operand is returned unchanged. |
| EllipticCurve.AddFailure | lenstra_elliptic_curve.py:210-241 | Addition fails iff the chord denominator (x2 − x1) % m or the tangent denominator (2·y1) % m is not invertible. The culprit is that denominator. |
| EllipticCurve.CulpritPositive | lenstra_elliptic_curve.py:210-241 | For an odd modulus and reduced coordinates, the culprit lies in (0, m). |
| EllipticCurve.EvenModulusZeroCulprit | lenstra_elliptic_curve.py:233-239 | For an even modulus the culprit can be 0: (0, 4) + (0, 0) mod 8 fails with 0. |
| EllipticCurve.AddInfinityCases | lenstra_elliptic_curve.py:225-249 | Equal x with y1 ≡ −y2, or with y1 = 0, gives the point at infinity. |
| EllipticCurve.TangentIgnoresSecondY | lenstra_elliptic_curve.py:231-233 | The tangent branch tests only x1 = x2, so the result does not depend on y2. |
| EllipticCurve.ChordCommutes | lenstra_elliptic_curve.py:210-223 | For distinct x, failure is symmetric, and a successful chord sum is commutative. |
| EllipticCurve.OppositeTest | lenstra_elliptic_curve.py:225 | The test `y1 % m == (m - y2) % m` holds exactly when y1 + y2 ≡ 0 (mod m), so it is symmetric. |
| EllipticCurve.AddTangentCase | lenstra_elliptic_curve.py:231-254 | For equal x, not opposite y and y1 ≠ 0, the result is the failure on (2·y1) % m or the tangent sum at (x1, y1). |
| EllipticCurve.TangentAtZero | lenstra_elliptic_curve.py:231-254 | On y² = x³ + b the tangent sum at (0, y1) with any second point (0, y2) is (0, −y1 mod m). |
| EllipticCurve.TangentOrderMatters | lenstra_elliptic_curve.py:231-254 | For (0, y1), (0, y2) with y2 neither y1 nor −y1 modulo m, the two orders give (0, −y1) and (0, −y2), which differ. |
| EllipticCurve.TangentNotCommutative | lenstra_elliptic_curve.py:231-254 | Over Z/15Z on y² = x³ + 1: (0, 1) + (0, 4) = (0, 14), but (0, 4) + (0, 1) = (0, 11). |
| EllipticCurve.EqualXCommutes | lenstra_elliptic_curve.py:225-247 | For equal x with y2 ≡ y1 or y2 ≡ −y1 (mod m), both orders give the same result. |
| EllipticCurve.PrimeSameX | lenstra_elliptic_curve.py:225-247 | Over a prime modulus, two curve points with the same x have y2 ≡ y1 or y2 ≡ −y1. |
| EllipticCurve.PrimeCulpritZero | lenstra_elliptic_curve.py:216-223 | Over a prime modulus, a reduced denominator that fails is 0. |
| EllipticCurve.AddCommutesPrime | lenstra_elliptic_curve.py:184-258 | Over a prime modulus, `elliptic_add` is commutative, failures included. |
| EllipticCurve.Sum | lenstra_elliptic_curve.py:252-256 | x3 and y3 are reduced and congruent to λ² − x1 − x2 and λ(x1 − x3) − y1. |
| EllipticCurve.ThirdPointOnCurve | lenstra_elliptic_curve.py:252-256 | The third point of a line through the curve (chord or tangent) lies on the curve. |
| EllipticCurve.Ladder | lenstra_elliptic_curve.py:279-306 | Recursive double-and-add. A failure reports a culprit sharing a factor with m; a success stays on the curve and stays reduced. |
| EllipticCurve.Multiply | lenstra_elliptic_curve.py:279-306 | The loop, for k ≥ 1, returns exactly Ladder(p, k, ∞): the first failed addition or the sum. |
| EllipticCurve.LadderOne | lenstra_elliptic_curve.py:294-303 | With k = 1 the final doubling is still attempted, and its failure is returned instead of p. |
| EllipticCurve.LadderEven | lenstra_elliptic_curve.py:283-303 | For even k the ladder is: double p, then continue with k / 2. |
| EllipticCurve.LadderOfInfinity | lenstra_elliptic_curve.py:279-306 | Multiples of the point at infinity leave the accumulator unchanged. |
| EllipticCurve.CurveB | lenstra_elliptic_curve.py:430 | The computed b lies in [0, n) and puts (x0, y0) on the curve mod n. |
| EllipticCurve.CurveBOnCurve | lenstra_elliptic_curve.py:430 | The source's expression for b puts (x0, y0) on the curve, which discharges the asserts at lines 207-208. |
| EllipticCurve.DiscriminantFactor | lenstra_elliptic_curve.py:443-446 | No factor iff gcd(4a³ + 27b², n) is 1 or n. Otherwise the returned value is a proper divisor of n. |
| EllipticCurve.SeedFactor | lenstra_elliptic_curve.py:454-457 | Fails iff gcd(2·y0, n) ≠ 1, and then returns a divisor of n greater than 1. |
| EllipticCurve.SeedFactorProper | lenstra_elliptic_curve.py:454-457 | For odd n and 0 < y0 < n, that divisor is proper. |
| MillerRabin.MillerRabin | MillerRabinPrimalityTest.py:10-70 | The verdict equals `Expected`: an error for n < 1, False for 1, True for 2, False for even n. Otherwise True iff every round passes with e = v₂(n − 1). The copies at Miller_Rabin_primality_test.py:10-58 and NaiveFactorize.py:13-61 have the same body. |
| MillerRabin.Round | MillerRabinPrimalityTest.py:53-65 | A round adds no failure iff the first step with a value other than 1 (every earlier one halved m) sees n − 1. |
| MillerRabin.RoundsPassStep | MillerRabinPrimalityTest.py:51-70 | failcount stays 0 after round r + 1 iff it was 0 after round r and round r passes. |
| MillerRabin.ExponentIsValuation | MillerRabinPrimalityTest.py:36-44 | `extract2` yields the largest power of 2 dividing n − 1, and e is its exponent. The exponents used before step e are even. |
| MillerRabin.HalveExponent | MillerRabinPrimalityTest.py:58-59 | `m // 2` after step s is the next exponent (n − 1) / 2^(s+1). |
| MillerRabin.PrimePassesRound | MillerRabinPrimalityTest.py:56-65 | A prime n passes a round with any base in [2, n − 1]. |
| MillerRabin.PrimeAccepted | MillerRabinPrimalityTest.py:51-70 | A prime is accepted whatever bases in [2, n − 1] are drawn. |
| MillerRabin.NaiveFactorize | NaiveFactorize.py:64-73 | Returns the least divisor d in [2, isqrt(n) + 1] of n, or None iff there is none. |
| MillerRabin.SmallerDivisorsRejected | NaiveFactorize.py:66-73 | Skipping numbers that Miller–Rabin rejects loses no divisor, because every divisor has a prime divisor, and primes are accepted. |
| QuadraticSieve.Legendre | quadratic_sieve.py:60-69 | A result is 1 or −1 and is congruent to a^((p−1)/2) modulo p. None means a^((p−1)/2) is neither 1 nor −1 modulo p. |
| QuadraticSieve.LegendrePrime | quadratic_sieve.py:60-69 | For a prime p coprime to a the symbol is defined: Euler's criterion gives 1 or p − 1, never the error. |
| QuadraticSieve.LegendreOfSquare | quadratic_sieve.py:60-69 | A quadratic residue coprime to a prime p has symbol 1. |
| QuadraticSieve.Extract2 | quadratic_sieve.py:78-79 | For m ≠ 0 the result is the 2-adic valuation (the lowest set bit of m). For m = 0 it is 0. |
| QuadraticSieve.Extract3 | quadratic_sieve.py:81-87 | For m ≠ 0 the count is the 3-adic valuation: 3^c divides m and 3^(c+1) does not. |
| QuadraticSieve.ModMul | quadratic_sieve.py:332-345 | Returns (a·b) % mod. |
| QuadraticSieve.DoublingStep | quadratic_sieve.py:337-344 | One iteration keeps res + a·b unchanged modulo mod. |
| QsMatrix.GetFactorBase | quadratic_sieve.py:299-304 | Errors iff some symbol is undefined. Otherwise returns the residues list. |
| QsMatrix.ResiduesMembers | quadratic_sieve.py:299-304 | The factor base holds exactly the candidates whose symbol is 1. |
| QsMatrix.ResiduesIncreasing | quadratic_sieve.py:299-304 | The factor base keeps the input order, so an increasing prime list gives an increasing base. |
| QsMatrix.PrimeSymbolsDefined | quadratic_sieve.py:299-304 | A list of primes none of which divides n never raises. |
| QsMatrix.SquareInFactorBase | quadratic_sieve.py:299-304 | Every listed prime modulo which n is a square enters the factor base. |
| QsMatrix.PrimeToIndex | quadratic_sieve.py:346-352 | The dictionary built is `IndexMap`. |
| QsMatrix.IndexMapLast | quadratic_sieve.py:346-352 | Its keys are the elements of the list, and each is mapped to its last position. |
| QsMatrix.IndexMapDistinct | quadratic_sieve.py:346-352 | On a list without repeats, factor_base[i] ↦ i. |
| QsMatrix.AddParities | quadratic_sieve.py:362-363 | Each slot grows by the parity of the exponent of its prime; nothing else changes. |
| QsMatrix.BuildRMatrix | quadratic_sieve.py:354-367 | One row per relation; row i is the parity row of relation i. |
| QsMatrix.ParityRowMeaning | quadratic_sieve.py:354-367 | Entries are 0 or 1. On a factor base without repeats, entry j is the exponent of factor_base[j], mod 2. |
| GaussGf2.GeGf2 | quadratic_sieve.py:141-179 | The elimination of a binary matrix with cols ≤ rows yields free rows. They are the unmarked rows of the eliminated copy, at least rows − cols of them. 'No solution' is returned only when rows = cols. |
| GaussGf2.ProcessColumn | quadratic_sieve.py:150-166 | Processing column j extends the elimination invariant from j to j + 1 columns. |
| GaussGf2.PivotStep | quadratic_sieve.py:152-166 | Marking the first row with a 1 in column j and clearing keeps the invariant. The pivot row was not marked before. |
| GaussGf2.NoPivotStep | quadratic_sieve.py:150-153 | A column with no 1 keeps the invariant. |
| GaussGf2.ClearColumns | quadratic_sieve.py:157-164 | The array afterwards holds `Cleared`: column j added into every other column with a 1 in the pivot row. |
| GaussGf2.AddColumn | quadratic_sieve.py:163-164 | Column k becomes (column j + column k) mod 2, and nothing else changes. |
| GaussGf2.ClearedZeroSum | quadratic_sieve.py:163-164 | A set of rows summing to zero after a column addition already summed to zero before it. |
| GaussGf2.FreeCount | quadratic_sieve.py:169-173 | Every row is either marked or free. |
| GaussGf2.Support | quadratic_sieve.py:185-187 | The indices of the 1s of the free row, increasing. |
| GaussGf2.Dependent | quadratic_sieve.py:189-193 | The marked rows with a 1 somewhere on that support. |
| GaussGf2.RowDepends | quadratic_sieve.py:190-193 | The inner search finds a hit iff the row is marked and has a 1 on the support. |
| GaussGf2.SolveRow | quadratic_sieve.py:182-198 | The list equals `SolutionVector`: the dependent marked rows in order, then the free row's index. |
| GaussGf2.FreeRowZeroSum | quadratic_sieve.py:182-198 | In the eliminated matrix, the rows `solve_row` lists sum to zero mod 2 in every column. |
| GaussGf2.NullSpace | quadratic_sieve.py:133-134 | The rows of the original M that `solve_row` lists are valid indices and sum to the zero vector mod 2. |
| QsCombine.Combine | quadratic_sieve.py:395-413 | Returns gcd(LHS − RHS, n), which divides n and lies in [1, n]. |
| QsCombine.SumRelations | quadratic_sieve.py:401-406 | LHS is the running `mod_mul` product of the chosen x, and the exponent array holds the summed exponents. |
| QsCombine.AddExponents | quadratic_sieve.py:405-406 | Each slot grows by its prime's exponent; nothing else changes. |
| QsCombine.HalvePowers | quadratic_sieve.py:408-410 | The exponent array is halved, and RHS is the product of factor_base[j]^(e_j/2) mod n. |
| QsCombine.LhsCong | quadratic_sieve.py:401-403 | LHS ≡ ∏x (mod n). |
| QsCombine.RhsCong | quadratic_sieve.py:408-410 | RHS ≡ ∏ factor_base[j]^(h_j) (mod n). |
| QsCombine.SquaresProduct | quadratic_sieve.py:401-406 | When each relation has x² − n = ∏p^e, then (∏x)² ≡ the product of the merged factorisation (mod n). |
| QsCombine.ProductOverBase | quadratic_sieve.py:408-410 | A factorisation over the factor base is the product of factor_base[j]^(e_j). |
| QsCombine.ColumnSumIsExp | quadratic_sieve.py:405-406 | The summed slot j is the exponent of factor_base[j] in the merged factorisation. |
| QsCombine.CongruentSquares | quadratic_sieve.py:395-413 | When the summed exponents are even, LHS² ≡ RHS² (mod n). |
| QsCombine.ParityColumn | quadratic_sieve.py:354-367 | The column sums of the parity matrix over the chosen rows have the parity of the summed exponents. |
| QsCombine.NullVectorSquares | quadratic_sieve.py:390-413 | A null-space vector of the parity matrix gives LHS² ≡ RHS² (mod n). |
| FactorMaps.Merge | RationalSieve.py:154-168 | Key union, with summed exponents; a missing key counts as 0. |
| FactorMaps.ProductMerge | RationalSieve.py:154-168 | The merged map is the factorisation of the product. |
| FactorMaps.Halve | RationalSieve.py:193-196 | Same keys, each exponent halved. |
| FactorMaps.EvenIsSquare | RationalSieve.py:190-196 | When every exponent is even, the product is the square of the halved product. |
| FactorMaps.FactorizationExists | RationalSieve.py:69-82 | Every x ≥ 1 has a prime factorisation. |
| FactorMaps.FactorizationUnique | RationalSieve.py:69-82 | It is unique. |
| RationalSieve.PrimeFactors | RationalSieve.py:69-82 | Returns the prime factorisation of number (product = number, prime keys, exponents ≥ 1), and {} for number ≤ 1. |
| RationalSieve.DivideOutAll | RationalSieve.py:74-78 | t is divided by i until i no longer divides it. f[i] counts the divisions, and the invariant product(f)·t = number is kept. |
| RationalSieve.LastFactorIsPrime | RationalSieve.py:80-81 | A remainder > 1 left with no divisor below isqrt(t) + 1 is prime. |
| RationalSieve.MaxKey | RationalSieve.py:87 | `max(prime_factors)` is a key that is at least every other key. |
| RationalSieve.IsBSmooth | RationalSieve.py:86-87 | True iff the largest key is a prime ≤ B. |
| RationalSieve.SmoothTest | RationalSieve.py:86-87 | On a factorisation, that test is exactly "every prime factor is ≤ B". |
| RationalSieve.SmoothFactors | RationalSieve.py:116-119 | Factorises x and reports whether it is B-smooth. |
| RationalSieve.RelationFor | RationalSieve.py:116-120 | Candidate z yields its relation iff z and n + z are both B-smooth. |
| RationalSieve.BuildRelations | RationalSieve.py:113-122 | Returns `Relations(n, B)`: candidates 2 … n − 1 in increasing order. |
| RationalSieve.RelationsExact | RationalSieve.py:113-122 | A relation is listed iff it stores the factorisations of some z in [2, n) with z and n + z both B-smooth. |
| RationalSieve.RelationsRelated | RationalSieve.py:113-122 | Every listed relation has product(zn) = product(z) + n. |
| RationalSieve.PrimeMultiply | RationalSieve.py:154-168 | Returns `Merge(f, g)`. |
| RationalSieve.MergeEqual | RationalSieve.py:156-166 | A map with the union keys and summed exponents is the merge. |
| RationalSieve.EvenExponents | RationalSieve.py:134-138 | True iff every exponent is even. |
| RationalSieve.HalfProduct | RationalSieve.py:193-196 | x = ∏ p^(e // 2). |
| RationalSieve.MergeSubset | RationalSieve.py:181-189 | The merged pair of a subset (the first relation, then each later one multiplied in). |
| RationalSieve.TryGcds | RationalSieve.py:199-205 | gcd(x − y, n) if it is proper, else gcd(x + y, n) if that is proper, else nothing. |
| RationalSieve.TrySubset | RationalSieve.py:181-205 | The outcome of one subset: evenness, then the two gcds. |
| RationalSieve.CombinationsSound | RationalSieve.py:180 | Every generated combination is strictly increasing, in range, and of the requested size. |
| RationalSieve.CombinationsComplete | RationalSieve.py:180 | Every such index list is generated. |
| RationalSieve.AllSubsetsExact | RationalSieve.py:179-180 | The subsets visited are exactly the non-empty increasing index lists. |
| RationalSieve.RationalSieve | RationalSieve.py:177-205 | Returns the first success in the visiting order, or None. |
| RationalSieve.FirstYieldIsFirst | RationalSieve.py:179-205 | A result is the outcome of some subset, and every earlier subset failed. None iff every subset fails. |
| RationalSieve.FoundFactorIsProper | RationalSieve.py:199-205 | A returned p satisfies 1 < p < n and p divides n. |
| RationalSieve.YieldIsFactor | RationalSieve.py:199-205 | Each gcd test yields only proper divisors. |
| RationalSieve.NothingFound | RationalSieve.py:177-205 | None means that no subset succeeds. |
| RationalSieve.MergedCongruent | RationalSieve.py:181-189 | For a merged subset, product(zn) ≡ product(z) (mod n). |
| RationalSieve.SquaresCongruent | RationalSieve.py:190-197 | When the evenness test passes, y² ≡ x² (mod n). |
| Bits.LowestBit | MillerRabinPrimalityTest.py:37-39 | `m & ~(m - 1)`, computed bit by bit, is 2 raised to the 2-adic valuation of m > 0. |
| Bits.LowestPowerOfTwo | MillerRabinPrimalityTest.py:36-40 | `m & ~(m - 1)` of m > 0 is the largest power of two dividing m: it divides m and twice it does not. |
| Bits.Val2Divides | MillerRabinPrimalityTest.py:36-42 | That power divides m, and twice that power does not. |
| Bits.Log2 | quadratic_sieve.py:79 | `len(bin(k)) - 3` is the r with 2^r ≤ k < 2^(r+1). The same value stands for `int(math.log(k, 2))` at MillerRabinPrimalityTest.py:44. |
| Bits.Log2Pow2 | MillerRabinPrimalityTest.py:44 | log₂ of 2^t is exactly t. |
| Fermat.FermatLittle | MillerRabinPrimalityTest.py:56-65 | a^(p−1) ≡ 1 (mod p) for a prime p not dividing a: why primes pass a round. |
| Fermat.SquareRootOfOne | MillerRabinPrimalityTest.py:56-65 | Modulo a prime, only 1 and p − 1 square to 1. |

## Left out

- The `lenstra` driver loop (lenstra_elliptic_curve.py:409-508) is left out. It
  draws random curves itself and recurses on itself with fresh draws. It also
  relies on a `TypeError` raised when a point becomes the string
  'Point At Infinity'. Its set-up arithmetic is modelled (`CurveB`,
  `DiscriminantFactor`, `SeedFactor`); the `MillerRabin` calls and recursion
  around it are not.
- `mod_p_sqrt` and `rep_square_to_1` (quadratic_sieve.py:89-128) are not
  modelled. Neither is used by the rest of the core. `rep_square_to_1` does
  not terminate for some inputs.
- `prime_factors` and `build_relations` of quadratic_sieve.py (lines 211-254
  and 306-330) are not modelled. They call the randomised `LenstraEC` module,
  which is not part of this model. The model takes the relations as an input
  instead (`QsRelation`).
- Floating point is not modelled: `bound`/`pnt`, `floor(sqrt(n))` and
  `int(math.log(k, 2))`. The exact `Isqrt` and `Log2` stand in for them, which
  ignores floating-point rounding for large n.
- Randomness (`secrets.SystemRandom`, `random.randint`) is not modelled. Its
  values are parameters.
- Printing, the module-level timing and test code, and the trivial unused
  `evaluate2` and `poly_gen_2` are not modelled.
- Sieve.PrimesUpTo: if no unmarked index follows p, the source repeats its
  `while` loop forever. The model leaves the loop there instead. This cannot
  happen while p² < n, because a prime always lies between p and p², but that
  fact is not proved here.
- RationalSieve.IsBSmooth: it calls the corrected sieve `PrimesUpToFixed`. The
  sieve as written would also accept a dictionary whose largest key is a
  non-prime B = q², but `prime_factors` never produces one (`SmoothTest`,
  `ListedPrime`). So `build_relations` and `rational_sieve` are unaffected.
- QuadraticSieve.Legendre: only the directions the core relies on are proved
  (defined for primes, 1 for squares). The converse, that symbol 1 implies a
  square, is not proved.
- EllipticCurve.Add: the asserts at lines 207-208 are preconditions, and so is
  m ≥ 1.
- EllipticCurve.ChordCommutes: commutativity holds for distinct x, and for
  every pair of points over a prime modulus (`AddCommutesPrime`). It does not
  hold over a composite modulus when the x coordinates are equal: the tangent
  uses only y1 (`TangentOrderMatters`, `TangentNotCommutative`).
- Sieve.PrimesUpTo and Sieve.PrimesUpToFixed require n ≥ 1. For n = 0 the
  source raises `IndexError` at `primeCheck[1] = False`.
- RationalSieve.IsBSmooth requires B ≥ 1, which excludes the `IndexError` of
  `primes_up_to(0)`. It also requires a non-empty dictionary, which excludes
  the `ValueError` of `max` on an empty one. Neither case arises from
  `build_relations`, which only tests the factorisations of numbers ≥ 2.
- RationalSieve.SmoothFactors and RationalSieve.RelationFor require B ≥ 1,
  for the same `IndexError`.
- RationalSieve.BuildRelations and RationalSieve.RationalSieve require B ≥ 1
  or n ≤ 2. For n ≤ 2 no candidate z is tested, so B = 0 raises nothing.
- GaussGf2.GeGf2: these are preconditions:
  - at least one row;
  - a rectangular 0/1 matrix;
  - the `cols <= rows` assert.

  'No solution' is stated through its consequence rows = cols rather than
  "every row is marked".
- QsMatrix.BuildRMatrix and QsCombine.Combine: the `KeyError` that a prime
  outside the factor base would raise is excluded by a precondition
  (`RelationsInBase`, `Combinable`). `Combinable` also asks for x ≥ 0.
- QuadraticSieve.ModMul: it requires b ≥ 0 (the loop runs forever otherwise)
  and mod > 0.
- QuadraticSieve.Extract3: it requires m ≠ 0 (the loop runs forever otherwise).
- EllipticCurve.Multiply: it requires k ≥ 1, because for k = 0 the source
  returns an unbound variable.
- The quadratic-sieve combination is proved for the relations and null vector
  it receives. The model does not claim that the relations satisfy
  x² − n = ∏p^e, because they come from the unmodelled `build_relations`.

## Findings

| source | as written | input that shows it | evidently intended | confidence | as-written member | corrected member |
|---|---|---|---|---|---|---|
| lenstra_elliptic_curve.py:121-133 | `egcd` uses Python's floor `%`. For a < 0 every remainder is ≤ 0, so g = −gcd(a, m) ≠ 1 and `mod_inverse2` raises for every negative base | a = −3, m = 7: `egcd(-3, 7)` gives g = −1, yet 2 is the inverse of −3 modulo 7 | an inverse for every integer base, as `pow(a, -1, m)` gives. Reducing a modulo m first achieves it | high; not executed (the source's own calls pass reduced values) | Euclid.ModInverse2, Euclid.NegativeBaseRejected | Euclid.ModInverse |
| lenstra_elliptic_curve.py:69 (and the copy at RationalSieve.py:35) | `while p**2 < n` stops before crossing out multiples of p when n = p² | n = 4 returns [2, 3, 4] | `while p**2 <= n`, giving exactly the primes ≤ n | high; not executed | Sieve.PrimesUpTo, Sieve.PrimeSquareListed | Sieve.PrimesUpToFixed |

/** The quadratic sieve's bookkeeping in quadratic_sieve.py: the factor base
    (`get_factor_base`), the position of each base prime (`prime_to_index`) and
    the exponent-parity matrix of the relations (`build_r_matrix`). */
module QsMatrix {
  import opened Arith
  import opened Wrappers
  import opened FactorMaps
  import opened Sieve
  import opened QuadraticSieve

  // ---------------------------------------------------------------------
  // get_factor_base

  /** `legendre(n, p)` is callable for every candidate: its assertion
      gcd(n, p) == 1 holds and the modulus is positive. */
  predicate Admissible(n: int, primeSet: seq<int>) {
    forall i :: 0 <= i < |primeSet| ==> primeSet[i] >= 1 && Gcd(n, primeSet[i]) == 1
  }

  /** No call `legendre(n, p)` raises. */
  predicate SymbolsDefined(n: int, primeSet: seq<int>)
    requires Admissible(n, primeSet)
  {
    forall i :: 0 <= i < |primeSet| ==> Legendre(n, primeSet[i]).Some?
  }

  /** The candidates with symbol 1, in input order. */
  function Residues(n: int, primeSet: seq<int>): seq<int>
    requires Admissible(n, primeSet)
  {
    if |primeSet| == 0 then []
    else
      var rest := Residues(n, primeSet[..|primeSet| - 1]);
      var p := primeSet[|primeSet| - 1];
      if Legendre(n, p) == Some(1) then rest + [p] else rest
  }

  /** `get_factor_base(n, prime_set)`; None where a `legendre` call raises. */
  method GetFactorBase(n: int, primeSet: seq<int>) returns (factorBase: Option<seq<int>>)
    requires Admissible(n, primeSet)
    ensures factorBase.None? <==> !SymbolsDefined(n, primeSet)
    ensures factorBase.Some? ==> factorBase.value == Residues(n, primeSet)
  {
    var base := [];
    for i := 0 to |primeSet|
      invariant base == Residues(n, primeSet[..i])
      invariant SymbolsDefined(n, primeSet[..i])
    {
      var symbol := Legendre(n, primeSet[i]);
      if symbol.None? {
        return None;
      }
      ResiduesStep(n, primeSet, i);
      if symbol == Some(1) {
        base := base + [primeSet[i]];
      }
    }
    assert primeSet[..|primeSet|] == primeSet;
    return Some(base);
  }

  lemma ResiduesStep(n: int, primeSet: seq<int>, i: int)
    requires Admissible(n, primeSet) && 0 <= i < |primeSet|
    requires SymbolsDefined(n, primeSet[..i]) && Legendre(n, primeSet[i]).Some?
    ensures Residues(n, primeSet[..i + 1]) ==
      if Legendre(n, primeSet[i]) == Some(1) then Residues(n, primeSet[..i]) + [primeSet[i]]
      else Residues(n, primeSet[..i])
    ensures SymbolsDefined(n, primeSet[..i + 1])
  {
    var prefix := primeSet[..i + 1];
    assert prefix[..i] == primeSet[..i];
    assert prefix[i] == primeSet[i];
    forall k | 0 <= k < i + 1 ensures Legendre(n, prefix[k]).Some? {
      if k < i {
        assert prefix[k] == primeSet[..i][k];
      }
    }
  }

  /** The factor base holds exactly the candidates with symbol 1. */
  lemma {:induction false} ResiduesMembers(n: int, primeSet: seq<int>, x: int)
    requires Admissible(n, primeSet)
    ensures x in Residues(n, primeSet) <==>
            exists i :: 0 <= i < |primeSet| && primeSet[i] == x && Legendre(n, x) == Some(1)
    decreases |primeSet|
  {
    if |primeSet| > 0 {
      var init := primeSet[..|primeSet| - 1];
      ResiduesMembers(n, init, x);
      if x in Residues(n, init) {
        var i :| 0 <= i < |init| && init[i] == x && Legendre(n, x) == Some(1);
        assert primeSet[i] == x;
      }
      if exists i :: 0 <= i < |primeSet| && primeSet[i] == x && Legendre(n, x) == Some(1) {
        var i :| 0 <= i < |primeSet| && primeSet[i] == x && Legendre(n, x) == Some(1);
        if i < |init| {
          assert init[i] == x;
        }
      }
    }
  }

  /** Filtering keeps the ascending order of the sieve's list. */
  lemma {:induction false} ResiduesIncreasing(n: int, primeSet: seq<int>)
    requires Admissible(n, primeSet) && StrictlyIncreasing(primeSet)
    ensures StrictlyIncreasing(Residues(n, primeSet))
    decreases |primeSet|
  {
    if |primeSet| > 0 {
      var init := primeSet[..|primeSet| - 1];
      var last := primeSet[|primeSet| - 1];
      ResiduesIncreasing(n, init);
      var rest := Residues(n, init);
      forall x | x in rest ensures x < last {
        ResiduesMembers(n, init, x);
      }
      if Legendre(n, last) == Some(1) {
        AppendIncreasing(rest, last);
      }
    }
  }

  /** On a list of primes no `legendre` call raises (Euler's criterion). */
  lemma PrimeSymbolsDefined(n: int, primeSet: seq<int>)
    requires Admissible(n, primeSet)
    requires forall i :: 0 <= i < |primeSet| ==> IsPrime(primeSet[i])
    ensures SymbolsDefined(n, primeSet)
  {
    forall i | 0 <= i < |primeSet| ensures Legendre(n, primeSet[i]).Some? {
      LegendrePrime(n, primeSet[i]);
    }
  }

  /** A candidate prime modulo which n is a square (as x^2 - n is divisible by
      p for a relation x) is in the factor base. */
  lemma SquareInFactorBase(n: int, primeSet: seq<int>, i: int, x: int)
    requires Admissible(n, primeSet) && 0 <= i < |primeSet| && IsPrime(primeSet[i])
    requires Cong(x * x, n, primeSet[i])
    ensures primeSet[i] in Residues(n, primeSet)
  {
    LegendreOfSquare(n, primeSet[i], x);
    ResiduesMembers(n, primeSet, primeSet[i]);
  }

  // ---------------------------------------------------------------------
  // prime_to_index

  /** No value occurs twice. */
  predicate Distinct(s: seq<int>) {
    forall i, j :: 0 <= i < j < |s| ==> s[i] != s[j]
  }

  lemma IncreasingDistinct(s: seq<int>)
    requires StrictlyIncreasing(s)
    ensures Distinct(s)
  {
  }

  /** The dictionary `prime_to_index` builds: each value maps to a position,
      later positions overwriting earlier ones. */
  function IndexMap(s: seq<int>): map<int, nat>
  {
    if |s| == 0 then map[] else IndexMap(s[..|s| - 1])[s[|s| - 1] := |s| - 1]
  }

  /** The keys are the listed values, each mapped to the last position showing it. */
  lemma {:induction false} IndexMapLast(s: seq<int>)
    ensures forall x :: x in IndexMap(s) <==> x in s
    ensures forall x :: x in IndexMap(s) ==>
      IndexMap(s)[x] < |s| && s[IndexMap(s)[x]] == x &&
      forall j :: IndexMap(s)[x] < j < |s| ==> s[j] != x
    decreases |s|
  {
    if |s| > 0 {
      var init := s[..|s| - 1];
      IndexMapLast(init);
      forall x ensures x in s <==> x in init || x == s[|s| - 1] {
        if x in s {
          var i :| 0 <= i < |s| && s[i] == x;
          if i < |init| { assert init[i] == x; }
        }
      }
    }
  }

  /** For a list without repeats, position i maps back to i. */
  lemma IndexMapDistinct(s: seq<int>, i: int)
    requires Distinct(s) && 0 <= i < |s|
    ensures s[i] in IndexMap(s) && IndexMap(s)[s[i]] == i
  {
    IndexMapLast(s);
  }

  /** `prime_to_index(factor_base)`. */
  method PrimeToIndex(factorBase: seq<int>) returns (indices: map<int, nat>)
    ensures indices == IndexMap(factorBase)
  {
    indices := map[];
    var count := 0;
    while count < |factorBase|
      invariant 0 <= count <= |factorBase|
      invariant indices == IndexMap(factorBase[..count])
    {
      assert factorBase[..count + 1][..count] == factorBase[..count];
      indices := indices[factorBase[count] := count];
      count := count + 1;
    }
    assert factorBase[..count] == factorBase;
  }

  // ---------------------------------------------------------------------
  // build_r_matrix

  /** A relation of the quadratic sieve: x with the factorisation of x^2 - n. */
  datatype QsRelation = QsRelation(x: int, factors: Factors)

  /** Every key of f is in the factor base (otherwise `prime_index[prime]`
      raises KeyError). */
  predicate KeysInBase(factorBase: seq<int>, f: Factors) {
    forall p :: p in f ==> p in factorBase
  }

  predicate RelationsInBase(factorBase: seq<int>, relations: seq<QsRelation>) {
    forall i :: 0 <= i < |relations| ==> KeysInBase(factorBase, relations[i].factors)
  }

  /** The exponent that lands in slot j: that of the key whose index is j. */
  function SlotExp(factorBase: seq<int>, f: Factors, j: int): nat
    requires 0 <= j < |factorBase|
  {
    IndexMapLast(factorBase);
    var p := factorBase[j];
    if p in f && IndexMap(factorBase)[p] == j then f[p] else 0
  }

  /** For a factor base without repeats, slot j holds the exponent of factor_base[j]. */
  lemma SlotExpDistinct(factorBase: seq<int>, f: Factors, j: int)
    requires Distinct(factorBase) && 0 <= j < |factorBase|
    ensures SlotExp(factorBase, f, j) == Exp(f, factorBase[j])
  {
    IndexMapDistinct(factorBase, j);
  }

  /** Adds f[p] % 2 into slot `prime_index[p]` of row, for every key p of f. */
  method AddParities(factorBase: seq<int>, indices: map<int, nat>, f: Factors, row: array<int>)
    requires indices == IndexMap(factorBase) && KeysInBase(factorBase, f)
    requires row.Length == |factorBase|
    modifies row
    ensures forall j :: 0 <= j < row.Length ==> row[j] == old(row[j]) + SlotExp(factorBase, f, j) % 2
  {
    IndexMapLast(factorBase);
    var todo := f.Keys;
    while exists p :: p in todo
      invariant todo <= f.Keys
      invariant forall j :: 0 <= j < row.Length ==>
        row[j] == old(row[j]) + (if factorBase[j] in todo then 0 else SlotExp(factorBase, f, j) % 2)
      decreases |todo|
    {
      var p :| p in todo;
      var j := indices[p];
      row[j] := row[j] + f[p] % 2;
      todo := todo - {p};
    }
  }

  /** The row of one relation: parities of the exponents, slot by slot. */
  function ParityRow(factorBase: seq<int>, f: Factors): (row: seq<int>)
    ensures |row| == |factorBase|
    ensures forall j :: 0 <= j < |row| ==> row[j] == SlotExp(factorBase, f, j) % 2
  {
    seq(|factorBase|, j requires 0 <= j < |factorBase| => SlotExp(factorBase, f, j) % 2)
  }

  /** `build_r_matrix(factor_base, relations)`. */
  method BuildRMatrix(factorBase: seq<int>, relations: seq<QsRelation>) returns (matrix: seq<seq<int>>)
    requires RelationsInBase(factorBase, relations)
    ensures |matrix| == |relations|
    ensures forall i :: 0 <= i < |relations| ==> matrix[i] == ParityRow(factorBase, relations[i].factors)
  {
    var primeIndex := PrimeToIndex(factorBase);
    matrix := [];
    for i := 0 to |relations|
      invariant |matrix| == i
      invariant forall i' :: 0 <= i' < i ==> matrix[i'] == ParityRow(factorBase, relations[i'].factors)
    {
      var row := new int[|factorBase|](_ => 0);
      AddParities(factorBase, primeIndex, relations[i].factors, row);
      matrix := matrix + [row[..]];
    }
  }

  /** Every entry of the matrix is 0 or 1, and for a factor base without repeats
      entry j of a row is the parity of the exponent of factor_base[j]. */
  lemma ParityRowMeaning(factorBase: seq<int>, f: Factors, j: int)
    requires 0 <= j < |factorBase|
    ensures ParityRow(factorBase, f)[j] == 0 || ParityRow(factorBase, f)[j] == 1
    ensures Distinct(factorBase) ==> ParityRow(factorBase, f)[j] == Exp(f, factorBase[j]) % 2
  {
    if Distinct(factorBase) {
      SlotExpDistinct(factorBase, f, j);
    }
  }
}

/** The last step of `quadratic_sieve(n)` in quadratic_sieve.py: the relations
    a null-space vector selects are combined into LHS = product of their x
    modulo n and RHS = product of factor_base[j]^(e_j / 2) modulo n, where e_j
    is the summed exponent of factor_base[j], and gcd(LHS - RHS, n) is returned.
    When the summed exponents are even, LHS^2 and RHS^2 agree modulo n. */
module QsCombine {
  import opened Arith
  import opened FactorMaps
  import opened QuadraticSieve
  import opened QsMatrix
  import opened GaussGf2

  /** Every entry of the solution vector indexes a relation. */
  predicate ValidIndices(relations: seq<QsRelation>, solution: seq<int>) {
    forall i :: 0 <= i < |solution| ==> 0 <= solution[i] < |relations|
  }

  /** The relations the solution vector selects, in its order. */
  function Selected(relations: seq<QsRelation>, solution: seq<int>): (sel: seq<QsRelation>)
    requires ValidIndices(relations, solution)
    ensures |sel| == |solution| && forall i :: 0 <= i < |sel| ==> sel[i] == relations[solution[i]]
  {
    seq(|solution|, i requires 0 <= i < |solution| => relations[solution[i]])
  }

  /** What the source needs of the selected relations: x >= 0 (`mod_mul` does not
      terminate for a negative multiplier) and keys in the factor base
      (`prime_index[prime]`). */
  predicate Combinable(factorBase: seq<int>, sel: seq<QsRelation>) {
    forall i :: 0 <= i < |sel| ==> sel[i].x >= 0 && KeysInBase(factorBase, sel[i].factors)
  }

  // ---------------------------------------------------------------------
  // The left-hand side

  /** LHS after the first loop: starts at 1, one `mod_mul` per relation. */
  function Lhs(n: int, sel: seq<QsRelation>): int
    requires n > 0
  {
    if |sel| == 0 then 1 else (Lhs(n, sel[..|sel| - 1]) * sel[|sel| - 1].x) % n
  }

  /** The product of the selected x. */
  function XProduct(sel: seq<QsRelation>): int {
    if |sel| == 0 then 1 else XProduct(sel[..|sel| - 1]) * sel[|sel| - 1].x
  }

  lemma {:induction false} LhsCong(n: int, sel: seq<QsRelation>)
    requires n > 0
    ensures Cong(Lhs(n, sel), XProduct(sel), n)
    decreases |sel|
  {
    if |sel| == 0 {
      CongRefl(1, n);
    } else {
      var init := sel[..|sel| - 1];
      var x := sel[|sel| - 1].x;
      LhsCong(n, init);
      CongRefl(x, n);
      CongMul(Lhs(n, init), XProduct(init), x, x, n);
      ModIsCong(Lhs(n, init) * x, n);
      CongTrans(Lhs(n, sel), Lhs(n, init) * x, XProduct(sel), n);
    }
  }

  // ---------------------------------------------------------------------
  // Summed exponents

  /** Slot j of `p_output` after the first loop. */
  function ColumnSum(factorBase: seq<int>, sel: seq<QsRelation>, j: int): nat
    requires 0 <= j < |factorBase|
  {
    if |sel| == 0 then 0
    else ColumnSum(factorBase, sel[..|sel| - 1], j) + SlotExp(factorBase, sel[|sel| - 1].factors, j)
  }

  function ExponentSums(factorBase: seq<int>, sel: seq<QsRelation>): (e: seq<nat>)
    ensures |e| == |factorBase| && forall j :: 0 <= j < |e| ==> e[j] == ColumnSum(factorBase, sel, j)
  {
    seq(|factorBase|, j requires 0 <= j < |factorBase| => ColumnSum(factorBase, sel, j))
  }

  /** `p_output[count] // 2` for every slot. */
  function Halves(e: seq<nat>): (h: seq<nat>)
    ensures |h| == |e| && forall j :: 0 <= j < |e| ==> h[j] == e[j] / 2
  {
    seq(|e|, j requires 0 <= j < |e| => e[j] / 2)
  }

  /** The dictionary of all selected relations merged (`prime_multiply` over them). */
  function MergeAll(sel: seq<QsRelation>): Factors {
    if |sel| == 0 then map[] else Merge(MergeAll(sel[..|sel| - 1]), sel[|sel| - 1].factors)
  }

  lemma {:induction false} MergeAllKeys(factorBase: seq<int>, sel: seq<QsRelation>)
    requires Combinable(factorBase, sel)
    ensures KeysInBase(factorBase, MergeAll(sel))
    decreases |sel|
  {
    if |sel| > 0 {
      MergeAllKeys(factorBase, sel[..|sel| - 1]);
    }
  }

  /** For a factor base without repeats, slot j sums the exponents of factor_base[j]. */
  lemma {:induction false} ColumnSumIsExp(factorBase: seq<int>, sel: seq<QsRelation>, j: int)
    requires Distinct(factorBase) && 0 <= j < |factorBase|
    ensures ColumnSum(factorBase, sel, j) == Exp(MergeAll(sel), factorBase[j])
    decreases |sel|
  {
    if |sel| > 0 {
      ColumnSumIsExp(factorBase, sel[..|sel| - 1], j);
      SlotExpDistinct(factorBase, sel[|sel| - 1].factors, j);
    }
  }

  /** The product of the x^2 is congruent to the product of the x^2 - n. */
  lemma {:induction false} SquaresProduct(n: int, sel: seq<QsRelation>)
    requires n > 0
    requires forall i :: 0 <= i < |sel| ==> sel[i].x * sel[i].x - n == Product(sel[i].factors)
    ensures Cong(XProduct(sel) * XProduct(sel), Product(MergeAll(sel)), n)
    decreases |sel|
  {
    if |sel| == 0 {
      ProductEmpty(map[]);
      CongRefl(1, n);
    } else {
      var init := sel[..|sel| - 1];
      var r := sel[|sel| - 1];
      SquaresProduct(n, init);
      ProductMerge(MergeAll(init), r.factors);
      DividesSelf(n);
      assert Cong(r.x * r.x, Product(r.factors), n);
      var a := XProduct(init);
      CongMul(a * a, Product(MergeAll(init)), r.x * r.x, Product(r.factors), n);
      SquareOfProduct(a, r.x);
    }
  }

  lemma SquareOfProduct(a: int, b: int)
    ensures (a * b) * (a * b) == (a * a) * (b * b)
  {
  }

  // ---------------------------------------------------------------------
  // The right-hand side

  /** RHS after the second loop over the halved slots h. */
  function Rhs(n: int, factorBase: seq<int>, h: seq<nat>): int
    requires n > 0 && |h| == |factorBase|
  {
    if |factorBase| == 0 then 1
    else
      var k := |factorBase| - 1;
      (Rhs(n, factorBase[..k], h[..k]) * ModPow(factorBase[k], h[k], n)) % n
  }

  /** The product of factor_base[j]^h[j]. */
  function BaseProduct(factorBase: seq<int>, h: seq<nat>): int
    requires |h| == |factorBase|
  {
    if |factorBase| == 0 then 1
    else
      var k := |factorBase| - 1;
      BaseProduct(factorBase[..k], h[..k]) * Pow(factorBase[k], h[k])
  }

  lemma {:induction false} RhsCong(n: int, factorBase: seq<int>, h: seq<nat>)
    requires n > 0 && |h| == |factorBase|
    ensures Cong(Rhs(n, factorBase, h), BaseProduct(factorBase, h), n)
    decreases |factorBase|
  {
    if |factorBase| == 0 {
      CongRefl(1, n);
    } else {
      var k := |factorBase| - 1;
      var a, b := Rhs(n, factorBase[..k], h[..k]), BaseProduct(factorBase[..k], h[..k]);
      var p := Pow(factorBase[k], h[k]);
      RhsCong(n, factorBase[..k], h[..k]);
      ModIsCong(p, n);
      CongMul(a, b, p % n, p, n);
      ModIsCong(a * (p % n), n);
      CongTrans(Rhs(n, factorBase, h), a * (p % n), b * p, n);
    }
  }

  /** The exponents of f read off slot by slot. */
  function Exponents(factorBase: seq<int>, f: Factors): (e: seq<nat>)
    ensures |e| == |factorBase| && forall j :: 0 <= j < |e| ==> e[j] == Exp(f, factorBase[j])
  {
    seq(|factorBase|, j requires 0 <= j < |factorBase| => Exp(f, factorBase[j]))
  }

  /** A dictionary whose keys all lie in a factor base without repeats stands
      for the product over the base of factor_base[j]^exponent. */
  lemma {:induction false} ProductOverBase(factorBase: seq<int>, f: Factors)
    requires Distinct(factorBase) && KeysInBase(factorBase, f)
    ensures Product(f) == BaseProduct(factorBase, Exponents(factorBase, f))
    decreases |factorBase|
  {
    if |factorBase| == 0 {
      ProductEmpty(f);
    } else {
      var k := |factorBase| - 1;
      var init, q := factorBase[..k], factorBase[k];
      var rest := f - {q};
      BaseInit(factorBase, f);
      ProductOverBase(init, rest);
      ExponentsInit(factorBase, f);
      ProductRemoveAny(f, q);
      LastSlot(factorBase, Exponents(factorBase, f), Product(rest), Pow(q, Exp(f, q)));
    }
  }

  /** The product over the base splits off its last slot. */
  lemma LastSlot(factorBase: seq<int>, e: seq<nat>, restProduct: int, last: int)
    requires |factorBase| > 0 && |e| == |factorBase|
    requires var k := |factorBase| - 1;
      restProduct == BaseProduct(factorBase[..k], e[..k]) && last == Pow(factorBase[k], e[k])
    ensures BaseProduct(factorBase, e) == last * restProduct
  {
  }

  /** Dropping the last slot of the base drops its key from the dictionary. */
  lemma BaseInit(factorBase: seq<int>, f: Factors)
    requires Distinct(factorBase) && KeysInBase(factorBase, f) && |factorBase| > 0
    ensures var k := |factorBase| - 1;
      Distinct(factorBase[..k]) && KeysInBase(factorBase[..k], f - {factorBase[k]})
  {
    var k := |factorBase| - 1;
    var init, q := factorBase[..k], factorBase[k];
    forall p | p in f - {q} ensures p in init {
      var i :| 0 <= i < |factorBase| && factorBase[i] == p;
      assert init[i] == p;
    }
  }

  lemma ExponentsInit(factorBase: seq<int>, f: Factors)
    requires Distinct(factorBase) && |factorBase| > 0
    ensures var k := |factorBase| - 1;
      Exponents(factorBase, f)[..k] == Exponents(factorBase[..k], f - {factorBase[k]})
  {
  }

  // ---------------------------------------------------------------------
  // The combination

  /** The combination step of `quadratic_sieve(n)` (lines 395 to 413), from the
      solution vector on. */
  method Combine(n: int, factorBase: seq<int>, relations: seq<QsRelation>, solution: seq<int>)
    returns (g: nat)
    requires n > 0 && ValidIndices(relations, solution)
    requires Combinable(factorBase, Selected(relations, solution))
    ensures var sel := Selected(relations, solution);
      g == Gcd(Lhs(n, sel) - Rhs(n, factorBase, Halves(ExponentSums(factorBase, sel))), n)
    ensures Divides(g, n) && 1 <= g <= n
  {
    ghost var sel := Selected(relations, solution);
    var pOutput := new nat[|factorBase|](_ => 0);
    var primeIndex := PrimeToIndex(factorBase);
    var lhs := SumRelations(n, factorBase, primeIndex, relations, solution, pOutput);
    var rhs := HalvePowers(n, factorBase, pOutput, ExponentSums(factorBase, sel));
    g := Gcd(lhs - rhs, n);
    GcdDivides(lhs - rhs, n);
    GcdBounds(lhs - rhs, n);
  }

  /** The `for item in solution_vec` loop: LHS and the summed exponents. */
  method SumRelations(n: int, factorBase: seq<int>, primeIndex: map<int, nat>, relations: seq<QsRelation>,
                      solution: seq<int>, pOutput: array<nat>) returns (lhs: int)
    requires n > 0 && ValidIndices(relations, solution)
    requires Combinable(factorBase, Selected(relations, solution))
    requires primeIndex == IndexMap(factorBase) && pOutput.Length == |factorBase|
    requires forall j :: 0 <= j < pOutput.Length ==> pOutput[j] == 0
    modifies pOutput
    ensures lhs == Lhs(n, Selected(relations, solution))
    ensures forall j :: 0 <= j < pOutput.Length ==> pOutput[j] == ExponentSums(factorBase, Selected(relations, solution))[j]
  {
    ghost var sel := Selected(relations, solution);
    lhs := 1;
    for i := 0 to |solution|
      invariant lhs == Lhs(n, sel[..i])
      invariant forall j :: 0 <= j < pOutput.Length ==> pOutput[j] == ColumnSum(factorBase, sel[..i], j)
    {
      var item := solution[i];
      SelectStep(n, factorBase, sel, i);
      lhs := ModMul(lhs, relations[item].x, n);
      AddExponents(factorBase, primeIndex, relations[item].factors, pOutput);
    }
    assert sel[..|solution|] == sel;
  }

  /** The `for count in range(len(p_output))` loop: halve each summed exponent
      and multiply factor_base[count] to that power into RHS. */
  method HalvePowers(n: int, factorBase: seq<int>, pOutput: array<nat>, ghost sums: seq<nat>) returns (rhs: int)
    requires n > 0 && pOutput.Length == |factorBase| == |sums|
    requires forall j :: 0 <= j < pOutput.Length ==> pOutput[j] == sums[j]
    modifies pOutput
    ensures rhs == Rhs(n, factorBase, Halves(sums))
    ensures pOutput[..] == Halves(sums)
  {
    ghost var h := Halves(sums);
    rhs := 1;
    for count := 0 to |factorBase|
      invariant forall j :: 0 <= j < count ==> pOutput[j] == h[j]
      invariant forall j :: count <= j < pOutput.Length ==> pOutput[j] == sums[j]
      invariant rhs == Rhs(n, factorBase[..count], h[..count])
    {
      pOutput[count] := pOutput[count] / 2;
      var power := ModPow(factorBase[count], pOutput[count], n);
      RhsStep(n, factorBase, h, count);
      rhs := ModMul(rhs, power, n);
    }
    assert factorBase[..|factorBase|] == factorBase && h[..|factorBase|] == h;
  }

  /** One more selected relation: one more factor in LHS, its exponents added. */
  lemma SelectStep(n: int, factorBase: seq<int>, sel: seq<QsRelation>, i: int)
    requires n > 0 && 0 <= i < |sel|
    ensures Lhs(n, sel[..i + 1]) == (Lhs(n, sel[..i]) * sel[i].x) % n
    ensures forall j :: 0 <= j < |factorBase| ==>
      ColumnSum(factorBase, sel[..i + 1], j) == ColumnSum(factorBase, sel[..i], j) + SlotExp(factorBase, sel[i].factors, j)
  {
    assert sel[..i + 1][..i] == sel[..i];
    assert sel[..i + 1][i] == sel[i];
  }

  lemma RhsStep(n: int, factorBase: seq<int>, h: seq<nat>, count: int)
    requires n > 0 && |h| == |factorBase| && 0 <= count < |factorBase|
    ensures Rhs(n, factorBase[..count + 1], h[..count + 1]) ==
      (Rhs(n, factorBase[..count], h[..count]) * ModPow(factorBase[count], h[count], n)) % n
  {
    assert factorBase[..count + 1][..count] == factorBase[..count];
    assert h[..count + 1][..count] == h[..count];
  }

  /** Adds f[p] into slot `prime_index[p]` of pOutput, for every key p of f. */
  method AddExponents(factorBase: seq<int>, indices: map<int, nat>, f: Factors, pOutput: array<nat>)
    requires indices == IndexMap(factorBase) && KeysInBase(factorBase, f)
    requires pOutput.Length == |factorBase|
    modifies pOutput
    ensures forall j :: 0 <= j < pOutput.Length ==> pOutput[j] == old(pOutput[j]) + SlotExp(factorBase, f, j)
  {
    IndexMapLast(factorBase);
    var todo := f.Keys;
    while exists p :: p in todo
      invariant todo <= f.Keys
      invariant forall j :: 0 <= j < pOutput.Length ==>
        pOutput[j] == old(pOutput[j]) + (if factorBase[j] in todo then 0 else SlotExp(factorBase, f, j))
      decreases |todo|
    {
      var p :| p in todo;
      var j := indices[p];
      pOutput[j] := pOutput[j] + f[p];
      todo := todo - {p};
    }
  }

  /** When each selected relation satisfies x^2 - n == the product of its
      dictionary and every summed exponent is even, the two sides are square
      roots of the same residue: LHS^2 == RHS^2 modulo n. */
  lemma CongruentSquares(n: int, factorBase: seq<int>, sel: seq<QsRelation>)
    requires n > 0 && Distinct(factorBase) && Combinable(factorBase, sel)
    requires forall i :: 0 <= i < |sel| ==> sel[i].x * sel[i].x - n == Product(sel[i].factors)
    requires forall j :: 0 <= j < |factorBase| ==> ColumnSum(factorBase, sel, j) % 2 == 0
    ensures var lhs := Lhs(n, sel);
      var rhs := Rhs(n, factorBase, Halves(ExponentSums(factorBase, sel)));
      Cong(lhs * lhs, rhs * rhs, n)
  {
    var lhs := Lhs(n, sel);
    var h := Halves(ExponentSums(factorBase, sel));
    var rhs := Rhs(n, factorBase, h);
    var merged := MergeAll(sel);
    var x := XProduct(sel);
    // lhs^2 == x^2 == product of the merged dictionary
    LhsCong(n, sel);
    CongMul(lhs, x, lhs, x, n);
    SquaresProduct(n, sel);
    CongTrans(lhs * lhs, x * x, Product(merged), n);
    // the merged dictionary has even exponents and keys in the base
    MergeAllKeys(factorBase, sel);
    forall p | p in merged ensures merged[p] % 2 == 0 {
      var j :| 0 <= j < |factorBase| && factorBase[j] == p;
      ColumnSumIsExp(factorBase, sel, j);
    }
    EvenIsSquare(merged);
    // its halved dictionary stands for the base product of the halved sums
    var half := Halve(merged);
    ProductOverBase(factorBase, half);
    forall j | 0 <= j < |factorBase| ensures Exponents(factorBase, half)[j] == h[j] {
      ColumnSumIsExp(factorBase, sel, j);
    }
    assert Exponents(factorBase, half) == h;
    // rhs^2 == that product squared
    var y := BaseProduct(factorBase, h);
    RhsCong(n, factorBase, h);
    CongMul(rhs, y, rhs, y, n);
    CongSym(rhs * rhs, y * y, n);
    CongTrans(lhs * lhs, y * y, rhs * rhs, n);
  }

  // ---------------------------------------------------------------------
  // From the parity matrix to even exponent sums

  lemma ParityAdd(a: int, b: int, x: int)
    requires a % 2 == b % 2
    ensures (a + x % 2) % 2 == (b + x) % 2
  {
  }

  /** Column j of the parity rows picked by the solution vector has the parity
      of the summed exponent in slot j. */
  lemma {:induction false} ParityColumn(factorBase: seq<int>, relations: seq<QsRelation>, matrix: seq<seq<int>>,
                                        solution: seq<int>, j: int)
    requires ValidIndices(relations, solution) && |matrix| == |relations| && Rect(matrix, |factorBase|)
    requires forall i :: 0 <= i < |relations| ==> matrix[i] == ParityRow(factorBase, relations[i].factors)
    requires 0 <= j < |factorBase|
    ensures ValidRows(solution, |matrix|)
    ensures ColSum(matrix, solution, j, |factorBase|) % 2 ==
            ColumnSum(factorBase, Selected(relations, solution), j) % 2
    decreases |solution|
  {
    if |solution| > 0 {
      var k := |solution| - 1;
      var init := solution[..k];
      ParityColumn(factorBase, relations, matrix, init, j);
      var sel := Selected(relations, solution);
      assert Selected(relations, init) == sel[..k];
      var f := relations[solution[k]].factors;
      ParityAdd(ColSum(matrix, init, j, |factorBase|), ColumnSum(factorBase, sel[..k], j),
                SlotExp(factorBase, f, j));
    }
  }

  /** The quadratic sieve's final step: when the relations satisfy x^2 - n == the product
      of their dictionaries and the solution vector picks rows of the parity
      matrix that sum to zero modulo 2 (what `solve_row` delivers), the two sides
      of the combination satisfy LHS^2 == RHS^2 modulo n. */
  lemma NullVectorSquares(n: int, factorBase: seq<int>, relations: seq<QsRelation>, matrix: seq<seq<int>>,
                          solution: seq<int>)
    requires n > 0 && Distinct(factorBase)
    requires |matrix| == |relations| && Rect(matrix, |factorBase|)
    requires forall i :: 0 <= i < |relations| ==> matrix[i] == ParityRow(factorBase, relations[i].factors)
    requires forall i :: 0 <= i < |relations| ==>
      relations[i].x * relations[i].x - n == Product(relations[i].factors)
    requires ValidRows(solution, |matrix|) && ZeroSum(matrix, solution, |factorBase|)
    requires Combinable(factorBase, Selected(relations, solution))
    ensures var sel := Selected(relations, solution);
      var lhs := Lhs(n, sel);
      var rhs := Rhs(n, factorBase, Halves(ExponentSums(factorBase, sel)));
      Cong(lhs * lhs, rhs * rhs, n)
  {
    var sel := Selected(relations, solution);
    forall j | 0 <= j < |factorBase| ensures ColumnSum(factorBase, sel, j) % 2 == 0 {
      ParityColumn(factorBase, relations, matrix, solution, j);
    }
    CongruentSquares(n, factorBase, sel);
  }
}

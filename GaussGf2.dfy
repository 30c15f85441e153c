/** Elimination over GF(2) in quadratic_sieve.py: `ge_gf2` works column by column
    on a copy of the matrix, marks one pivot row per column that has a 1 and
    clears the rest of that row by adding the pivot column to every other column
    where the row has a 1; `solve_row` then reads a set of rows summing to zero
    off an unmarked row. Column operations keep the set of row combinations that
    sum to zero, so the rows of the original matrix picked by `solve_row` sum to
    the zero vector modulo 2. */
module GaussGf2 {

  // ---------------------------------------------------------------------
  // Matrices and row sums

  /** Every row has `cols` entries. */
  predicate Rect(t: seq<seq<int>>, cols: nat) {
    forall r :: 0 <= r < |t| ==> |t[r]| == cols
  }

  /** Every entry is 0 or 1. */
  predicate Binary(t: seq<seq<int>>) {
    forall r, c :: 0 <= r < |t| && 0 <= c < |t[r]| ==> t[r][c] == 0 || t[r][c] == 1
  }

  /** Every entry of L is a row index. */
  predicate ValidRows(L: seq<int>, rows: nat) {
    forall i :: 0 <= i < |L| ==> 0 <= L[i] < rows
  }

  /** The sum of the entries in column c of the rows listed in L. */
  function ColSum(t: seq<seq<int>>, L: seq<int>, c: int, cols: nat): int
    requires Rect(t, cols) && ValidRows(L, |t|) && 0 <= c < cols
  {
    if |L| == 0 then 0 else ColSum(t, L[..|L| - 1], c, cols) + t[L[|L| - 1]][c]
  }

  /** The rows listed in L add up to the zero vector modulo 2. */
  predicate ZeroSum(t: seq<seq<int>>, L: seq<int>, cols: nat)
    requires Rect(t, cols) && ValidRows(L, |t|)
  {
    forall c :: 0 <= c < cols ==> ColSum(t, L, c, cols) % 2 == 0
  }

  lemma ColSumAppend(t: seq<seq<int>>, L: seq<int>, r: int, c: int, cols: nat)
    requires Rect(t, cols) && ValidRows(L, |t|) && 0 <= r < |t| && 0 <= c < cols
    ensures ValidRows(L + [r], |t|)
    ensures ColSum(t, L + [r], c, cols) == ColSum(t, L, c, cols) + t[r][c]
  {
    assert (L + [r])[..|L|] == L;
  }

  /** row is the unit vector with its 1 in column c. */
  predicate IsUnit(row: seq<int>, c: int) {
    0 <= c < |row| && forall c' :: 0 <= c' < |row| ==> row[c'] == (if c' == c then 1 else 0)
  }

  /** The number of marked rows. */
  function CountTrue(s: seq<bool>): nat {
    if |s| == 0 then 0 else CountTrue(s[..|s| - 1]) + (if s[|s| - 1] then 1 else 0)
  }

  lemma {:induction false} CountNone(s: seq<bool>)
    requires forall i :: 0 <= i < |s| ==> !s[i]
    ensures CountTrue(s) == 0
    decreases |s|
  {
    if |s| > 0 {
      CountNone(s[..|s| - 1]);
    }
  }

  /** Marking one more row adds one. */
  lemma {:induction false} CountMark(s: seq<bool>, i: int)
    requires 0 <= i < |s| && !s[i]
    ensures CountTrue(s[i := true]) == CountTrue(s) + 1
    decreases |s|
  {
    var k := |s| - 1;
    var s' := s[i := true];
    if i < k {
      assert s'[..k] == s[..k][i := true];
      CountMark(s[..k], i);
    } else {
      assert s'[..k] == s[..k];
    }
  }

  // ---------------------------------------------------------------------
  // The column operation

  /** Entry (r, c) once the columns below `upto` have been cleared against the
      pivot (i, j): column c gets column j added where row i has a 1. */
  function ClearedCell(t: seq<seq<int>>, cols: nat, i: int, j: int, upto: int, r: int, c: int): int
    requires Rect(t, cols) && 0 <= i < |t| && 0 <= j < cols && 0 <= r < |t| && 0 <= c < cols
  {
    if c < upto && c != j && t[i][c] == 1 then (t[r][j] + t[r][c]) % 2 else t[r][c]
  }

  /** The matrix once every column has been cleared against the pivot (i, j). */
  function Cleared(t: seq<seq<int>>, cols: nat, i: int, j: int): (t': seq<seq<int>>)
    requires Rect(t, cols) && 0 <= i < |t| && 0 <= j < cols
    ensures |t'| == |t| && Rect(t', cols)
    ensures forall r, c :: 0 <= r < |t| && 0 <= c < cols ==> t'[r][c] == ClearedCell(t, cols, i, j, cols, r, c)
  {
    seq(|t|, r requires 0 <= r < |t| =>
      seq(cols, c requires 0 <= c < cols => ClearedCell(t, cols, i, j, cols, r, c)))
  }

  lemma ModTwoAdd(a: int, b: int, x: int, y: int)
    requires a % 2 == b % 2
    ensures (a + (x + y) % 2) % 2 == (b + x + y) % 2
  {
  }

  /** Column sums after clearing: a changed column c sums to the old sums of
      columns j and c modulo 2; every other column keeps its sum. */
  lemma {:induction false} ClearedColSum(t: seq<seq<int>>, cols: nat, i: int, j: int, L: seq<int>, c: int)
    requires Rect(t, cols) && 0 <= i < |t| && 0 <= j < cols && ValidRows(L, |t|) && 0 <= c < cols
    ensures c != j && t[i][c] == 1 ==>
      ColSum(Cleared(t, cols, i, j), L, c, cols) % 2 ==
      (ColSum(t, L, j, cols) + ColSum(t, L, c, cols)) % 2
    ensures !(c != j && t[i][c] == 1) ==>
      ColSum(Cleared(t, cols, i, j), L, c, cols) == ColSum(t, L, c, cols)
    decreases |L|
  {
    if |L| > 0 {
      var init := L[..|L| - 1];
      var r := L[|L| - 1];
      ClearedColSum(t, cols, i, j, init, c);
      if c != j && t[i][c] == 1 {
        ModTwoAdd(ColSum(Cleared(t, cols, i, j), init, c, cols),
                  ColSum(t, init, j, cols) + ColSum(t, init, c, cols), t[r][j], t[r][c]);
      }
    }
  }

  /** A combination of rows that sums to zero after clearing already did before. */
  lemma ClearedZeroSum(t: seq<seq<int>>, cols: nat, i: int, j: int, L: seq<int>)
    requires Rect(t, cols) && 0 <= i < |t| && 0 <= j < cols && ValidRows(L, |t|)
    requires ZeroSum(Cleared(t, cols, i, j), L, cols)
    ensures ZeroSum(t, L, cols)
  {
    ClearedColSum(t, cols, i, j, L, j);
    forall c | 0 <= c < cols ensures ColSum(t, L, c, cols) % 2 == 0 {
      ClearedColSum(t, cols, i, j, L, c);
    }
  }

  // ---------------------------------------------------------------------
  // The state after the first j columns

  /** After columns 0 .. j-1: t is a binary matrix of M's shape whose zero-sum row
      combinations are zero-sum in M; each marked row is the unit vector at its
      own pivot column, below j and different for different rows; every column
      below j that is no row's pivot is zero; at most j rows are marked. */
  ghost predicate Eliminated(M: seq<seq<int>>, t: seq<seq<int>>, mk: seq<bool>, pivot: seq<int>, cols: nat, j: int)
    requires Rect(M, cols)
  {
    |t| == |M| && |mk| == |t| && |pivot| == |t| && 0 <= j <= cols &&
    Echelon(t, mk, pivot, cols, j) && CountTrue(mk) <= j &&
    (forall L :: ValidRows(L, |t|) && ZeroSum(t, L, cols) ==> ZeroSum(M, L, cols))
  }

  /** The shape part of the state after columns 0 .. j-1. */
  predicate Echelon(t: seq<seq<int>>, mk: seq<bool>, pivot: seq<int>, cols: nat, j: int) {
    |mk| == |t| && |pivot| == |t| &&
    Rect(t, cols) && Binary(t) &&
    (forall r :: 0 <= r < |t| && mk[r] ==> 0 <= pivot[r] < j && IsUnit(t[r], pivot[r])) &&
    (forall r, r' :: 0 <= r < |t| && 0 <= r' < |t| && mk[r] && mk[r'] && r != r' ==> pivot[r] != pivot[r']) &&
    (forall c :: 0 <= c < j && !IsPivot(mk, pivot, c) ==> ZeroColumn(t, c))
  }

  /** Some marked row has its pivot in column c. */
  predicate IsPivot(mk: seq<bool>, pivot: seq<int>, c: int)
    requires |pivot| == |mk|
  {
    exists r :: 0 <= r < |mk| && mk[r] && pivot[r] == c
  }

  /** Column c is zero. */
  predicate ZeroColumn(t: seq<seq<int>>, c: int) {
    forall r :: 0 <= r < |t| && 0 <= c < |t[r]| ==> t[r][c] == 0
  }

  lemma InitiallyEliminated(M: seq<seq<int>>, cols: nat, mk: seq<bool>, pivot: seq<int>)
    requires Rect(M, cols) && Binary(M) && |mk| == |M| && |pivot| == |M|
    requires forall r :: 0 <= r < |mk| ==> !mk[r]
    ensures Eliminated(M, M, mk, pivot, cols, 0)
  {
    CountNone(mk);
  }

  /** Column j has a 1 in row i: marking i and clearing against (i, j) keeps the state. */
  lemma PivotStep(M: seq<seq<int>>, t: seq<seq<int>>, mk: seq<bool>, pivot: seq<int>, cols: nat, j: int, i: int)
    requires Rect(M, cols) && Eliminated(M, t, mk, pivot, cols, j) && j < cols
    requires 0 <= i < |t| && t[i][j] == 1
    ensures !mk[i]
    ensures Eliminated(M, Cleared(t, cols, i, j), mk[i := true], pivot[i := j], cols, j + 1)
  {
    var t' := Cleared(t, cols, i, j);
    var mk', pivot' := mk[i := true], pivot[i := j];
    forall L | ValidRows(L, |t'|) && ZeroSum(t', L, cols) ensures ZeroSum(M, L, cols) {
      ClearedZeroSum(t, cols, i, j, L);
    }
    PivotRowsUnit(t, cols, i, j, mk, pivot);
    PivotZeroColumns(M, t, mk, pivot, cols, j, i);
    CountMark(mk, i);
  }

  lemma PivotRowsUnit(t: seq<seq<int>>, cols: nat, i: int, j: int, mk: seq<bool>, pivot: seq<int>)
    requires Rect(t, cols) && Binary(t) && 0 <= i < |t| && 0 <= j < cols && t[i][j] == 1
    requires |mk| == |t| && |pivot| == |t|
    requires forall r :: 0 <= r < |t| && mk[r] ==> 0 <= pivot[r] < j && IsUnit(t[r], pivot[r])
    ensures var t', mk', pivot' := Cleared(t, cols, i, j), mk[i := true], pivot[i := j];
      forall r :: 0 <= r < |t'| && mk'[r] ==> 0 <= pivot'[r] < j + 1 && IsUnit(t'[r], pivot'[r])
  {
    var t' := Cleared(t, cols, i, j);
    forall c | 0 <= c < cols ensures t'[i][c] == (if c == j then 1 else 0) {
    }
    forall r | 0 <= r < |t| && mk[r] && r != i ensures t'[r] == t[r] {
      assert t[r][j] == 0;
      forall c | 0 <= c < cols ensures t'[r][c] == t[r][c] {
      }
    }
  }

  lemma PivotZeroColumns(M: seq<seq<int>>, t: seq<seq<int>>, mk: seq<bool>, pivot: seq<int>, cols: nat, j: int, i: int)
    requires Rect(M, cols) && Eliminated(M, t, mk, pivot, cols, j) && j < cols
    requires 0 <= i < |t| && t[i][j] == 1 && !mk[i]
    ensures var t', mk', pivot' := Cleared(t, cols, i, j), mk[i := true], pivot[i := j];
      forall c :: 0 <= c < j + 1 && !IsPivot(mk', pivot', c) ==> ZeroColumn(t', c)
  {
    var t', mk', pivot' := Cleared(t, cols, i, j), mk[i := true], pivot[i := j];
    forall c | 0 <= c < j + 1 && !IsPivot(mk', pivot', c) ensures ZeroColumn(t', c) {
      assert mk'[i] && pivot'[i] == j;
      forall r | 0 <= r < |mk| && mk[r] ensures pivot[r] != c {
        assert mk'[r] && pivot'[r] == pivot[r];
      }
      assert !IsPivot(mk, pivot, c);
      assert t[i][c] == 0;
    }
  }

  /** Column j has no 1: it is a zero column from now on. */
  lemma NoPivotStep(M: seq<seq<int>>, t: seq<seq<int>>, mk: seq<bool>, pivot: seq<int>, cols: nat, j: int)
    requires Rect(M, cols) && Eliminated(M, t, mk, pivot, cols, j) && j < cols
    requires forall r :: 0 <= r < |t| ==> t[r][j] != 1
    ensures Eliminated(M, t, mk, pivot, cols, j + 1)
  {
  }

  // ---------------------------------------------------------------------
  // ge_gf2

  /** An unmarked row with its index: `[temp[count], count]`. */
  datatype FreeRow = FreeRow(row: seq<int>, index: int)

  /** What `ge_gf2` returns: the "No solution" message, or the free rows, the
      marking, the eliminated copy and the original matrix. */
  datatype Elimination =
    | NoSolution
    | Solved(solutions: seq<FreeRow>, rowMarking: seq<bool>, temp: seq<seq<int>>, original: seq<seq<int>>)

  /** The unmarked rows below `upto`, in increasing order. */
  function FreeRows(t: seq<seq<int>>, mk: seq<bool>, upto: int): (free: seq<FreeRow>)
    requires 0 <= upto <= |t| && |t| <= |mk|
    ensures forall m :: 0 <= m < |free| ==>
      0 <= free[m].index < upto && !mk[free[m].index] && free[m].row == t[free[m].index]
  {
    if upto == 0 then []
    else FreeRows(t, mk, upto - 1) + (if mk[upto - 1] then [] else [FreeRow(t[upto - 1], upto - 1)])
  }

  /** Every row is either marked or free. */
  lemma {:induction false} FreeCount(t: seq<seq<int>>, mk: seq<bool>, upto: int)
    requires 0 <= upto <= |t| && |t| <= |mk|
    ensures |FreeRows(t, mk, upto)| + CountTrue(mk[..upto]) == upto
    decreases upto
  {
    if upto > 0 {
      FreeCount(t, mk, upto - 1);
      assert mk[..upto][..upto - 1] == mk[..upto - 1];
    }
  }

  /** The result of `ge_gf2(M)` on a binary M: the state after all columns. */
  ghost predicate ValidElimination(M: seq<seq<int>>, cols: nat, result: Elimination)
    requires Rect(M, cols)
  {
    result.Solved? &&
    result.original == M && |result.rowMarking| == |M| && |result.temp| == |M| &&
    result.solutions == FreeRows(result.temp, result.rowMarking, |M|) &&
    exists pivot :: Eliminated(M, result.temp, result.rowMarking, pivot, cols, cols)
  }

  /** The array holds the matrix t. */
  ghost predicate Mirrors(a: array2<int>, t: seq<seq<int>>)
    reads a
  {
    a.Length0 == |t| && Rect(t, a.Length1) &&
    forall r, c :: 0 <= r < a.Length0 && 0 <= c < a.Length1 ==> a[r, c] == t[r][c]
  }

  /** Row r of the array. */
  function RowOf(a: array2<int>, r: int): (row: seq<int>)
    requires 0 <= r < a.Length0
    reads a
    ensures |row| == a.Length1 && forall c :: 0 <= c < a.Length1 ==> row[c] == a[r, c]
  {
    seq(a.Length1, c requires 0 <= c < a.Length1 reads a => a[r, c])
  }

  /** The array as a list of rows. */
  function Snapshot(a: array2<int>): (t: seq<seq<int>>)
    reads a
    ensures |t| == a.Length0 && forall r :: 0 <= r < a.Length0 ==> t[r] == RowOf(a, r)
  {
    seq(a.Length0, r requires 0 <= r < a.Length0 reads a => RowOf(a, r))
  }

  lemma SnapshotMirrors(a: array2<int>, t: seq<seq<int>>)
    requires Mirrors(a, t)
    ensures Snapshot(a) == t
  {
    forall r | 0 <= r < |t| ensures Snapshot(a)[r] == t[r] {
    }
  }

  /** `ge_gf2(M)`: M is binary, rectangular with at least one row and no more
      columns than rows (the source asserts `cols <= rows`). */
  method GeGf2(M: seq<seq<int>>) returns (result: Elimination)
    requires |M| >= 1 && Rect(M, |M[0]|) && Binary(M) && |M[0]| <= |M|
    ensures result.Solved? ==> ValidElimination(M, |M[0]|, result)
    ensures result.Solved? ==> 1 <= |result.solutions| && |M| - |M[0]| <= |result.solutions|
    ensures result.NoSolution? ==> |M| == |M[0]|
  {
    var rows, cols := |M|, |M[0]|;
    var temp := new int[rows, cols]((r: int, c: int) requires 0 <= r < rows && 0 <= c < cols => M[r][c]);
    var rowMarking := new bool[rows](_ => false);
    ghost var t := M;
    ghost var pivot: seq<int> := seq(rows, _ => -1);
    InitiallyEliminated(M, cols, rowMarking[..], pivot);
    for j := 0 to cols
      invariant Mirrors(temp, t) && temp.Length1 == cols && rowMarking.Length == rows
      invariant Eliminated(M, t, rowMarking[..], pivot, cols, j)
    {
      t, pivot := ProcessColumn(temp, rowMarking, j, M, t, pivot);
    }
    var solutions := [];
    for count := 0 to rows
      invariant Mirrors(temp, t)
      invariant solutions == FreeRows(t, rowMarking[..], count)
    {
      if !rowMarking[count] {
        assert RowOf(temp, count) == t[count];
        solutions := solutions + [FreeRow(RowOf(temp, count), count)];
      }
    }
    FreeCount(t, rowMarking[..], rows);
    assert rowMarking[..][..rows] == rowMarking[..];
    if |solutions| == 0 {
      return NoSolution;
    }
    SnapshotMirrors(temp, t);
    result := Solved(solutions, rowMarking[..], Snapshot(temp), M);
  }

  /** The `for i in range(rows)` search of column j and, at the first row with a
      1, the marking and the clearing. */
  method ProcessColumn(temp: array2<int>, rowMarking: array<bool>, j: int,
                       ghost M: seq<seq<int>>, ghost t: seq<seq<int>>, ghost pivot: seq<int>)
    returns (ghost t': seq<seq<int>>, ghost pivot': seq<int>)
    requires Rect(M, temp.Length1) && Mirrors(temp, t) && rowMarking.Length == |t|
    requires Eliminated(M, t, rowMarking[..], pivot, temp.Length1, j) && j < temp.Length1
    modifies temp, rowMarking
    ensures Mirrors(temp, t') && Eliminated(M, t', rowMarking[..], pivot', temp.Length1, j + 1)
  {
    var i := 0;
    while i < temp.Length0
      invariant 0 <= i <= temp.Length0
      invariant forall r :: 0 <= r < i ==> t[r][j] != 1
    {
      if temp[i, j] == 1 {
        PivotStep(M, t, rowMarking[..], pivot, temp.Length1, j, i);
        rowMarking[i] := true;
        ClearColumns(temp, i, j, t);
        assert rowMarking[..] == old(rowMarking[..])[i := true];
        t', pivot' := Cleared(t, temp.Length1, i, j), pivot[i := j];
        return;
      }
      i := i + 1;
    }
    NoPivotStep(M, t, rowMarking[..], pivot, temp.Length1, j);
    t', pivot' := t, pivot;
  }

  /** The `for k in range(cols)` loop: clear row i against the pivot column j. */
  method ClearColumns(temp: array2<int>, i: int, j: int, ghost t: seq<seq<int>>)
    requires Mirrors(temp, t) && 0 <= i < temp.Length0 && 0 <= j < temp.Length1
    modifies temp
    ensures Mirrors(temp, Cleared(t, temp.Length1, i, j))
  {
    for k := 0 to temp.Length1
      invariant forall r, c :: 0 <= r < temp.Length0 && 0 <= c < temp.Length1 ==>
        temp[r, c] == ClearedCell(t, temp.Length1, i, j, k, r, c)
    {
      if k != j && temp[i, k] == 1 {
        AddColumn(temp, j, k);
      }
    }
  }

  /** `temp[count][k] = (temp[count][j] + temp[count][k]) % 2` for every row. */
  method AddColumn(temp: array2<int>, j: int, k: int)
    requires 0 <= j < temp.Length1 && 0 <= k < temp.Length1 && j != k
    modifies temp
    ensures forall r, c :: 0 <= r < temp.Length0 && 0 <= c < temp.Length1 ==>
      temp[r, c] == if c == k then (old(temp[r, j]) + old(temp[r, k])) % 2 else old(temp[r, c])
  {
    for count := 0 to temp.Length0
      invariant forall r, c :: 0 <= r < temp.Length0 && 0 <= c < temp.Length1 ==>
        temp[r, c] == if c == k && r < count then (old(temp[r, j]) + old(temp[r, k])) % 2 else old(temp[r, c])
    {
      temp[count, k] := (temp[count, j] + temp[count, k]) % 2;
    }
  }

  // ---------------------------------------------------------------------
  // solve_row

  /** The positions of the 1s of row below `upto`. */
  function Support(row: seq<int>, upto: int): (s: seq<int>)
    requires 0 <= upto <= |row|
    ensures forall i :: i in s <==> 0 <= i < upto && row[i] == 1
    ensures forall m :: 0 <= m < |s| ==> 0 <= s[m] < upto && row[s[m]] == 1
  {
    if upto == 0 then []
    else Support(row, upto - 1) + (if row[upto - 1] == 1 then [upto - 1] else [])
  }

  /** The row has a 1 at one of the positions. */
  predicate Hits(row: seq<int>, positions: seq<int>) {
    exists m :: 0 <= m < |positions| && 0 <= positions[m] < |row| && row[positions[m]] == 1
  }

  /** The marked rows below `upto` with a 1 at one of the positions, in increasing order. */
  function Dependent(t: seq<seq<int>>, mk: seq<bool>, positions: seq<int>, upto: int): (d: seq<int>)
    requires 0 <= upto <= |t| && |t| <= |mk|
    ensures forall m :: 0 <= m < |d| ==> 0 <= d[m] < upto && mk[d[m]] && Hits(t[d[m]], positions)
  {
    if upto == 0 then []
    else
      Dependent(t, mk, positions, upto - 1) +
      (if mk[upto - 1] && Hits(t[upto - 1], positions) then [upto - 1] else [])
  }

  /** The list `solve_row` returns for free row k. */
  function SolutionVector(solutions: seq<FreeRow>, t: seq<seq<int>>, mk: seq<bool>, k: int): seq<int>
    requires 0 <= k < |solutions| && |t| <= |mk|
  {
    var row := solutions[k].row;
    Dependent(t, mk, Support(row, |row|), |t|) + [solutions[k].index]
  }

  /** `temp[r][i]` exists for every row r and every 1 of the free row. */
  predicate SupportInRows(t: seq<seq<int>>, row: seq<int>) {
    forall r, i :: 0 <= r < |t| && 0 <= i < |row| && row[i] == 1 ==> i < |t[r]|
  }

  /** `solve_row(solutions, temp, row_marking, K)`. */
  method SolveRow(solutions: seq<FreeRow>, temp: seq<seq<int>>, rowMarking: seq<bool>, k: int)
    returns (solutionVec: seq<int>)
    requires 0 <= k < |solutions| && |temp| <= |rowMarking|
    requires SupportInRows(temp, solutions[k].row)
    ensures solutionVec == SolutionVector(solutions, temp, rowMarking, k)
  {
    var freeRow := solutions[k].row;
    var indices := [];
    for i := 0 to |freeRow|
      invariant indices == Support(freeRow, i)
    {
      if freeRow[i] == 1 {
        indices := indices + [i];
      }
    }
    solutionVec := [];
    for r := 0 to |temp|
      invariant solutionVec == Dependent(temp, rowMarking, indices, r)
    {
      var hit := RowDepends(temp[r], rowMarking[r], indices);
      if hit {
        solutionVec := solutionVec + [r];
      }
    }
    solutionVec := solutionVec + [solutions[k].index];
  }

  /** The inner `for i in indices` loop of `solve_row` for one row: whether the
      row is marked and has a 1 at one of the indices (it stops at the first). */
  method RowDepends(row: seq<int>, marked: bool, indices: seq<int>) returns (hit: bool)
    requires forall m :: 0 <= m < |indices| ==> 0 <= indices[m] < |row|
    ensures hit == (marked && Hits(row, indices))
  {
    hit := false;
    for m := 0 to |indices|
      invariant forall m' :: 0 <= m' < m ==> !(row[indices[m']] == 1 && marked)
    {
      if row[indices[m]] == 1 && marked {
        hit := true;
        return;
      }
    }
  }

  /** Column c of the dependent rows, when every marked row but rc is 0 there. */
  lemma {:induction false} DependentColSum(t: seq<seq<int>>, cols: nat, mk: seq<bool>, positions: seq<int>,
                                           upto: int, c: int, rc: int)
    requires Rect(t, cols) && 0 <= upto <= |t| && |t| <= |mk| && 0 <= c < cols
    requires forall r :: 0 <= r < upto && mk[r] && r != rc ==> t[r][c] == 0
    ensures ValidRows(Dependent(t, mk, positions, upto), |t|)
    ensures ColSum(t, Dependent(t, mk, positions, upto), c, cols) ==
      if 0 <= rc < upto && mk[rc] && Hits(t[rc], positions) then t[rc][c] else 0
    decreases upto
  {
    if upto > 0 {
      var r := upto - 1;
      DependentColSum(t, cols, mk, positions, r, c, rc);
      DependentStep(t, cols, mk, positions, upto, c);
      if r != rc {
        assert mk[r] ==> t[r][c] == 0;
      }
    }
  }

  lemma DependentStep(t: seq<seq<int>>, cols: nat, mk: seq<bool>, positions: seq<int>, upto: int, c: int)
    requires Rect(t, cols) && 0 < upto <= |t| && |t| <= |mk| && 0 <= c < cols
    ensures ValidRows(Dependent(t, mk, positions, upto), |t|)
    ensures ValidRows(Dependent(t, mk, positions, upto - 1), |t|)
    ensures ColSum(t, Dependent(t, mk, positions, upto), c, cols) ==
      ColSum(t, Dependent(t, mk, positions, upto - 1), c, cols) +
      (if mk[upto - 1] && Hits(t[upto - 1], positions) then t[upto - 1][c] else 0)
  {
    var d := Dependent(t, mk, positions, upto - 1);
    if mk[upto - 1] && Hits(t[upto - 1], positions) {
      ColSumAppend(t, d, upto - 1, c, cols);
    } else {
      assert Dependent(t, mk, positions, upto) == d;
    }
  }

  /** A unit row hits the support of the free row exactly when the free row has
      a 1 at the unit's column. */
  lemma UnitHits(unit: seq<int>, c: int, row: seq<int>)
    requires IsUnit(unit, c) && |row| == |unit|
    ensures Hits(unit, Support(row, |row|)) <==> row[c] == 1
  {
    var s := Support(row, |row|);
    if row[c] == 1 {
      assert c in s;
      var m :| 0 <= m < |s| && s[m] == c;
    }
    if Hits(unit, s) {
      var m :| 0 <= m < |s| && 0 <= s[m] < |unit| && unit[s[m]] == 1;
      assert s[m] in s;
    }
  }

  /** The rows of M that `solve_row` picks from the result of `ge_gf2(M)` sum to
      the zero vector modulo 2: an element of the left null space of M. */
  lemma NullSpace(M: seq<seq<int>>, cols: nat, result: Elimination, k: int)
    requires Rect(M, cols) && ValidElimination(M, cols, result) && 0 <= k < |result.solutions|
    ensures SupportInRows(result.temp, result.solutions[k].row)
    ensures var v := SolutionVector(result.solutions, result.temp, result.rowMarking, k);
      ValidRows(v, |M|) && ZeroSum(M, v, cols)
  {
    var t, mk := result.temp, result.rowMarking;
    var pivot :| Eliminated(M, t, mk, pivot, cols, cols);
    var free := result.solutions[k];
    var f := free.index;
    assert 0 <= f < |t| && !mk[f] && free.row == t[f];
    var positions := Support(free.row, |free.row|);
    var d := Dependent(t, mk, positions, |t|);
    var v := d + [f];
    assert v == SolutionVector(result.solutions, t, mk, k);
    FreeRowZeroSum(t, mk, pivot, cols, f);
  }

  /** The rows `solve_row` picks for the free row f sum to zero in every column of t. */
  lemma FreeRowZeroSum(t: seq<seq<int>>, mk: seq<bool>, pivot: seq<int>, cols: nat, f: int)
    requires Echelon(t, mk, pivot, cols, cols)
    requires 0 <= f < |t| && !mk[f]
    ensures var v := Dependent(t, mk, Support(t[f], |t[f]|), |t|) + [f];
      ValidRows(v, |t|) && ZeroSum(t, v, cols)
  {
    var v := Dependent(t, mk, Support(t[f], |t[f]|), |t|) + [f];
    forall c | 0 <= c < cols ensures ValidRows(v, |t|) && ColSum(t, v, c, cols) % 2 == 0 {
      FreeColumnEven(t, mk, pivot, cols, f, c);
    }
  }

  /** Column c of the rows `solve_row` picks for the free row f sums to 0 or 2. */
  lemma FreeColumnEven(t: seq<seq<int>>, mk: seq<bool>, pivot: seq<int>, cols: nat, f: int, c: int)
    requires Echelon(t, mk, pivot, cols, cols)
    requires 0 <= f < |t| && !mk[f] && 0 <= c < cols
    ensures var d := Dependent(t, mk, Support(t[f], |t[f]|), |t|);
      ValidRows(d + [f], |t|) && ColSum(t, d + [f], c, cols) % 2 == 0
  {
    var positions := Support(t[f], |t[f]|);
    var d := Dependent(t, mk, positions, |t|);
    DependentColSumFree(t, mk, pivot, cols, f, c);
    ColSumAppend(t, d, f, c, cols);
    TwiceEven(t[f][c], ColSum(t, d + [f], c, cols));
  }

  lemma TwiceEven(v: int, s: int)
    requires s == v + v
    ensures s % 2 == 0
  {
    assert s == 2 * v;
  }

  /** The dependent rows of the free row f have column sum t[f][c] in column c. */
  lemma DependentColSumFree(t: seq<seq<int>>, mk: seq<bool>, pivot: seq<int>, cols: nat, f: int, c: int)
    requires Echelon(t, mk, pivot, cols, cols)
    requires 0 <= f < |t| && !mk[f] && 0 <= c < cols
    ensures var d := Dependent(t, mk, Support(t[f], |t[f]|), |t|);
      ValidRows(d, |t|) && ColSum(t, d, c, cols) == t[f][c] && (t[f][c] == 0 || t[f][c] == 1)
  {
    var positions := Support(t[f], |t[f]|);
    if IsPivot(mk, pivot, c) {
      var rc :| 0 <= rc < |t| && mk[rc] && pivot[rc] == c;
      forall r | 0 <= r < |t| && mk[r] && r != rc ensures t[r][c] == 0 {
        assert pivot[r] != c;
      }
      DependentColSum(t, cols, mk, positions, |t|, c, rc);
      UnitHits(t[rc], c, t[f]);
    } else {
      assert ZeroColumn(t, c);
      DependentColSum(t, cols, mk, positions, |t|, c, -1);
    }
  }
}

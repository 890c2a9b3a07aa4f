/** Improving a Cauchy matrix (cauchy.c): columns are scaled until row 0 is all ones, then every other row is
    scaled so that its bitmatrix has as few ones as any of the tried scalings gives. */
module CauchyImprove {
  import opened Fields
  import opened LinearAlgebra
  import opened RowReduction
  import opened Elimination
  import opened Galois
  import opened LogTables
  import opened MatrixDecoding
  import opened Independence
  import opened Distribution
  import opened CauchyOnes

  // ---- Scaling a coding matrix is scaling the systematic matrix below the identity.

  lemma SystematicTop<E(!new)>(F: Field<E>, k: nat, C: seq<seq<E>>)
    requires F.Valid() && IsMatrix(F, C, |C|, k) && AnyRows(F, Systematic(F, k, C), k) && |C| > 0
    ensures UnitTop(F, Systematic(F, k, C), k, k)
  {
  }

  lemma SystematicRow<E(!new)>(F: Field<E>, k: nat, C: seq<seq<E>>, d: nat)
    requires IsMatrix(F, C, |C|, k) && d < k + |C|
    ensures Systematic(F, k, C)[d] == if d < k then UnitVec(F, k, d) else C[d - k]
    ensures |Systematic(F, k, C)[d]| == k
  {
    assert d >= k ==> IsVec(F, C[d - k], k);
  }

  // Rows with the same systematic matrix as ones that are a matrix are one.
  lemma CodingOf<E(!new)>(F: Field<E>, k: nat, C: seq<seq<E>>, M: seq<seq<E>>)
    requires |M| == k + |C| && UnitTop(F, M, k, k) && forall i | 0 <= i < |C| :: C[i] == M[k + i]
    ensures IsMatrix(F, C, |C|, k) && AnyRows(F, Systematic(F, k, C), k)
  {
    forall i | 0 <= i < |C|
      ensures IsVec(F, C[i], k)
    {
      RowIsVec(F, M, k, k + i);
    }
    assert Systematic(F, k, C) == M;
  }

  lemma ScaleCodingColumn<E(!new)>(F: Field<E>, k: nat, C: seq<seq<E>>, j: nat, t: E)
    requires F.Valid() && IsMatrix(F, C, |C|, k) && AnyRows(F, Systematic(F, k, C), k) && |C| > 0 && j < k
    requires F.elem(t) && t != F.zero
    ensures IsMatrix(F, ScaleColumn(F, C, k, j, t), |C|, k)
    ensures AnyRows(F, Systematic(F, k, ScaleColumn(F, C, k, j, t)), k)
  {
    hide AnyRows, Systematic, UnitTop, ScaleAt;
    var M, C' := Systematic(F, k, C), ScaleColumn(F, C, k, j, t);
    SystematicTop(F, k, C);
    forall d | 0 <= d < |M|
      ensures |M[d]| == k && (d >= k ==> M[d] == C[d - k])
    {
      SystematicRow(F, k, C, d);
    }
    ScaleBelowKeepsTop(F, M, k, j, t);
    CodingOf(F, k, C', ScaleBelow(F, M, k, j, t));
  }

  lemma ScaleCodingRow<E(!new)>(F: Field<E>, k: nat, C: seq<seq<E>>, i: nat, t: E)
    requires F.Valid() && IsMatrix(F, C, |C|, k) && AnyRows(F, Systematic(F, k, C), k) && i < |C|
    requires F.elem(t) && t != F.zero
    ensures IsMatrix(F, ScaleRow(F, C, i, t), |C|, k)
    ensures AnyRows(F, Systematic(F, k, ScaleRow(F, C, i, t)), k)
  {
    hide AnyRows, Systematic, UnitTop, Scaled;
    var M := Systematic(F, k, C);
    SystematicTop(F, k, C);
    forall r | 0 <= r < |C|
      ensures M[k + r] == C[r]
    {
      SystematicRow(F, k, C, k + r);
    }
    ScaleLowRow(F, M, k, k + i, t);
    CodingOf(F, k, ScaleRow(F, C, i, t), ScaleRow(F, M, k + i, t));
  }

  // ---- The column phase.

  /** A coding matrix any k devices of which determine the data. */
  ghost predicate Good(g: seq<bool>, k: nat, C: seq<seq<seq<bool>>>) {
    |C| > 0 && IsMatrix(GF(g), C, |C|, k) && AnyRows(GF(g), Systematic(GF(g), k, C), k)
  }

  // Every entry divided by the entry of row 0 above it, in the first n columns.
  ghost function Divided(g: seq<bool>, C: seq<seq<seq<bool>>>, k: nat, n: nat): (D: seq<seq<seq<bool>>>)
    requires |C| > 0 && IsMatrix(GF(g), C, |C|, k)
    ensures |D| == |C|
  {
    seq(|C|, i requires 0 <= i < |C| =>
      seq(k, j requires 0 <= j < k => if j < n then Mul(g, GF(g).inv(C[0][j]), C[i][j]) else C[i][j]))
  }

  lemma NonzeroEntry(g: seq<bool>, k: nat, C: seq<seq<seq<bool>>>, i: nat, j: nat)
    requires Primitive(g) && Good(g, k, C) && i < |C| && j < k
    ensures |C[i]| == k && |C[i][j]| == |g| && C[i][j] != Zero(|g|)
    ensures var t := GF(g).inv(C[i][j]); |t| == |g| && t != Zero(|g|) && Mul(g, t, C[i][j]) == One(|g|)
  {
    hide FindInverse, Mul, AnyRows, DistinctPowers;
    GFValid(g);
    CodingNonzero(GF(g), k, C, i, j);
    assert IsVec(GF(g), C[i], k);
    GF(g).InvCancel(C[i][j], One(|g|));
  }

  lemma DivideColumn(g: seq<bool>, k: nat, C: seq<seq<seq<bool>>>, j: nat)
    requires Primitive(g) && Good(g, k, C) && j < k
    ensures |C[0]| == k && |C[0][j]| == |g|
    ensures Divided(g, C, k, j + 1) ==
      if C[0][j] != One(|g|) then ScaleColumn(GF(g), Divided(g, C, k, j), k, j, GF(g).inv(C[0][j]))
      else Divided(g, C, k, j)
  {
    hide FindInverse, Mul, AnyRows, Systematic, DistinctPowers;
    NonzeroEntry(g, k, C, 0, j);
    var t := GF(g).inv(C[0][j]);
    var D, D' := Divided(g, C, k, j), Divided(g, C, k, j + 1);
    if C[0][j] == One(|g|) {
      MulOne(g, t);
    }
    forall i | 0 <= i < |C|
      ensures D'[i] == if C[0][j] != One(|g|) then ScaleAt(GF(g), D[i], j, t) else D[i]
    {
      assert IsVec(GF(g), C[i], k);
      MulCommutes(g, t, C[i][j]);
      MulOne(g, C[i][j]);
    }
  }

  lemma DividedStart(g: seq<bool>, C: seq<seq<seq<bool>>>, k: nat)
    requires |C| > 0 && IsMatrix(GF(g), C, |C|, k)
    ensures Divided(g, C, k, 0) == C
  {
    assert forall i | 0 <= i < |C| :: IsVec(GF(g), C[i], k) && Divided(g, C, k, 0)[i] == C[i];
  }

  // Column j is still as it was, and what scaling it makes.
  lemma DivideNext(g: seq<bool>, k: nat, C: seq<seq<seq<bool>>>, D: seq<seq<seq<bool>>>, j: nat)
    requires Primitive(g) && Good(g, k, C) && j < k && D == Divided(g, C, k, j) && Good(g, k, D)
    ensures |C[0]| == |D[0]| == k && |C[0][j]| == |g| && D[0][j] == C[0][j] && forall i | 0 <= i < |D| :: |D[i]| == k
    ensures var t := GF(g).inv(C[0][j]);
      if C[0][j] == One(|g|) then Divided(g, C, k, j + 1) == D
      else Divided(g, C, k, j + 1) == ScaleColumn(GF(g), D, k, j, t) && Good(g, k, ScaleColumn(GF(g), D, k, j, t))
  {
    hide FindInverse, Mul, AnyRows, Systematic, DistinctPowers;
    GFValid(g);
    assert IsVec(GF(g), C[0], k);
    DivideColumn(g, k, C, j);
    NonzeroEntry(g, k, C, 0, j);
    ScaleCodingColumn(GF(g), k, D, j, GF(g).inv(C[0][j]));
  }

  lemma DividedOnes(g: seq<bool>, k: nat, C: seq<seq<seq<bool>>>)
    requires Primitive(g) && Good(g, k, C)
    ensures AllOnes(GF(g), Divided(g, C, k, k)[0])
  {
    hide FindInverse, Mul, AnyRows, Systematic, DistinctPowers;
    forall j | 0 <= j < k
      ensures Divided(g, C, k, k)[0][j] == One(|g|)
    {
      NonzeroEntry(g, k, C, 0, j);
    }
  }

  method DivideColumns(g: seq<bool>, k: nat, m: nat, matrix: array2<seq<bool>>)
    requires Primitive(g) && matrix.Length0 == m && matrix.Length1 == k && Good(g, k, Rows(matrix))
    modifies matrix
    ensures Good(g, k, Rows(matrix)) && Rows(matrix) == Divided(g, old(Rows(matrix)), k, k)
    ensures AllOnes(GF(g), Rows(matrix)[0])
    ensures forall i, j | 0 <= i < m && 0 <= j < k ::
      |old(matrix[0, j])| == |matrix[i, j]| == |g| && Mul(g, old(matrix[0, j]), matrix[i, j]) == old(matrix[i, j])
  {
    hide GF, Good, Primitive, Divided, ScaleColumn, AllOnes;
    ghost var C := Rows(matrix);
    DividedFirst(g, k, C);
    for j := 0 to k
      invariant Good(g, k, Rows(matrix)) && Rows(matrix) == Divided(g, C, k, j)
    {
      DivideNext(g, k, C, Rows(matrix), j);
      if matrix[0, j] != One(|g|) {
        var tmp := GF(g).inv(matrix[0, j]);
        ScaleColumnInPlace(GF(g), matrix, j, tmp);
      }
    }
    DividedOnes(g, k, C);
    forall i, j | 0 <= i < m && 0 <= j < k
      ensures |old(matrix[0, j])| == |matrix[i, j]| == |g|
      ensures Mul(g, old(matrix[0, j]), matrix[i, j]) == old(matrix[i, j])
    {
      DividedTimes(g, k, C, i, j);
    }
  }

  /** Every entry times what row 0 held in its column is what it was before. */
  lemma DividedTimes(g: seq<bool>, k: nat, C: seq<seq<seq<bool>>>, i: nat, j: nat)
    requires Primitive(g) && Good(g, k, C) && i < |C| && j < k
    ensures |C[0]| == |C[i]| == |Divided(g, C, k, k)[i]| == k
    ensures |C[0][j]| == |Divided(g, C, k, k)[i][j]| == |g|
    ensures Mul(g, C[0][j], Divided(g, C, k, k)[i][j]) == C[i][j]
  {
    hide FindInverse, Mul, AnyRows, Systematic, DistinctPowers;
    NonzeroEntry(g, k, C, 0, j);
    GFValid(g);
    assert IsVec(GF(g), C[0], k) && IsVec(GF(g), C[i], k);
    GF(g).InvCancel(C[0][j], C[i][j]);
  }

  lemma DividedFirst(g: seq<bool>, k: nat, C: seq<seq<seq<bool>>>)
    requires Good(g, k, C)
    ensures |C| > 0 && IsMatrix(GF(g), C, |C|, k) && Divided(g, C, k, 0) == C
  {
    DividedStart(g, C, k);
  }

  // ---- The row phase.

  function RowOnes(g: seq<bool>, row: seq<seq<bool>>, n: nat): nat
    requires n <= |row| && forall j | 0 <= j < |row| :: |row[j]| == |g|
  {
    if n == 0 then 0 else RowOnes(g, row, n - 1) + BlockOnes(g, row[n - 1], |g|)
  }

  ghost predicate IsRow(g: seq<bool>, row: seq<seq<bool>>) {
    forall j | 0 <= j < |row| :: |row[j]| == |g|
  }

  // The row divided by its entry j.
  ghost function Candidate(g: seq<bool>, row: seq<seq<bool>>, j: nat): (r: seq<seq<bool>>)
    requires IsRow(g, row) && j < |row|
    ensures |r| == |row|
    ensures IsRow(g, r)
  {
    seq(|row|, x requires 0 <= x < |row| => Mul(g, GF(g).inv(row[j]), row[x]))
  }

  /** Its entries times entry j are those of the row. */
  lemma CandidateTimes(g: seq<bool>, row: seq<seq<bool>>, j: nat, x: nat)
    requires Primitive(g) && IsRow(g, row) && j < |row| && x < |row| && row[j] != Zero(|g|)
    ensures Mul(g, row[j], Candidate(g, row, j)[x]) == row[x]
  {
    hide FindInverse, Mul, DistinctPowers;
    GFValid(g);
    GF(g).InvCancel(row[j], row[x]);
  }

  method CountRow(g: seq<bool>, row: seq<seq<bool>>) returns (bno: int)
    requires |g| > 0 && IsRow(g, row)
    ensures bno == RowOnes(g, row, |row|)
  {
    hide BlockOnes;
    bno := 0;
    for j := 0 to |row|
      invariant bno == RowOnes(g, row, j)
    {
      var ones := CauchyNOnes(g, row[j]);
      bno := bno + ones;
    }
  }

  method CountCandidate(g: seq<bool>, row: seq<seq<bool>>, j: nat) returns (tno: int)
    requires |g| > 0 && IsRow(g, row) && j < |row|
    ensures tno == RowOnes(g, Candidate(g, row, j), |row|)
  {
    hide BlockOnes, FindInverse, Mul;
    var tmp := GF(g).inv(row[j]);
    tno := 0;
    for x := 0 to |row|
      invariant tno == RowOnes(g, Candidate(g, row, j), x)
    {
      assert Candidate(g, row, j)[x] == Mul(g, tmp, row[x]);
      var ones := CauchyNOnes(g, Mul(g, tmp, row[x]));
      tno := tno + ones;
    }
  }

  // An entry of one gives the row itself.
  lemma TrivialCandidate(g: seq<bool>, row: seq<seq<bool>>, j: nat)
    requires Primitive(g) && IsRow(g, row) && j < |row| && row[j] == One(|g|)
    ensures Candidate(g, row, j) == row
  {
    hide FindInverse, Mul, DistinctPowers;
    GFValid(g);
    assert One(|g|) != Zero(|g|) by { OneIsNotZero(g); }
    GF(g).InvCancel(One(|g|), One(|g|));
    MulOne(g, GF(g).inv(One(|g|)));
    forall x | 0 <= x < |row|
      ensures Candidate(g, row, j)[x] == row[x]
    {
      MulCommutes(g, One(|g|), row[x]);
      MulOne(g, row[x]);
    }
  }

  lemma OneIsNotZero(g: seq<bool>)
    requires |g| > 0
    ensures One(|g|) != Zero(|g|)
  {
    assert One(|g|)[0] != Zero(|g|)[0];
  }

  /** The first position whose division has the fewest ones, and fewer than the row itself. */
  ghost predicate FirstBest(g: seq<bool>, row: seq<seq<bool>>, best: nat) {
    && IsRow(g, row) && best < |row|
    && RowOnes(g, Candidate(g, row, best), |row|) < RowOnes(g, row, |row|)
    && (forall j | 0 <= j < best ::
          RowOnes(g, Candidate(g, row, best), |row|) < RowOnes(g, Candidate(g, row, j), |row|))
    && (forall j | best <= j < |row| ::
          RowOnes(g, Candidate(g, row, best), |row|) <= RowOnes(g, Candidate(g, row, j), |row|))
  }

  // The best divisor, or none when no division has fewer ones.
  method BestDivisor(g: seq<bool>, row: seq<seq<bool>>) returns (best: int)
    requires Primitive(g) && IsRow(g, row)
    ensures -1 <= best < |row|
    ensures best == -1 ==>
      forall j | 0 <= j < |row| :: RowOnes(g, row, |row|) <= RowOnes(g, Candidate(g, row, j), |row|)
    ensures best >= 0 ==> RowOnes(g, Candidate(g, row, best), |row|) < RowOnes(g, row, |row|)
    ensures best >= 0 ==>
      forall j | 0 <= j < best :: RowOnes(g, Candidate(g, row, best), |row|) < RowOnes(g, Candidate(g, row, j), |row|)
    ensures best >= 0 ==>
      forall j | 0 <= j < |row| :: RowOnes(g, Candidate(g, row, best), |row|) <= RowOnes(g, Candidate(g, row, j), |row|)
  {
    hide Candidate, RowOnes, DistinctPowers;
    var bno := CountRow(g, row);
    best := -1;
    for j := 0 to |row|
      invariant -1 <= best < j
      invariant bno == if best == -1 then RowOnes(g, row, |row|) else RowOnes(g, Candidate(g, row, best), |row|)
      invariant bno <= RowOnes(g, row, |row|) && (best >= 0 ==> bno < RowOnes(g, row, |row|))
      invariant forall c | 0 <= c < j :: bno <= RowOnes(g, Candidate(g, row, c), |row|)
      invariant forall c | 0 <= c < best :: bno < RowOnes(g, Candidate(g, row, c), |row|)
    {
      if row[j] != One(|g|) {
        var tno := CountCandidate(g, row, j);
        if tno < bno {
          bno := tno;
          best := j;
        }
      } else {
        TrivialCandidate(g, row, j);
      }
    }
  }

  /** What becomes of row: its division by the first best divisor, or row itself when no division has fewer ones. */
  ghost predicate BestRow(g: seq<bool>, row: seq<seq<bool>>, r: seq<seq<bool>>) {
    && IsRow(g, row)
    && if forall j | 0 <= j < |row| :: RowOnes(g, row, |row|) <= RowOnes(g, Candidate(g, row, j), |row|)
       then r == row
       else exists best | 0 <= best < |row| :: FirstBest(g, row, best) && r == Candidate(g, row, best)
  }

  /** Only one row is. */
  lemma BestRowUnique(g: seq<bool>, row: seq<seq<bool>>, r: seq<seq<bool>>, r': seq<seq<bool>>)
    requires BestRow(g, row, r) && BestRow(g, row, r')
    ensures r == r'
  {
    hide Candidate, RowOnes;
    if !(forall j | 0 <= j < |row| :: RowOnes(g, row, |row|) <= RowOnes(g, Candidate(g, row, j), |row|)) {
      var j :| 0 <= j < |row| && FirstBest(g, row, j) && r == Candidate(g, row, j);
      var j' :| 0 <= j' < |row| && FirstBest(g, row, j') && r' == Candidate(g, row, j');
    }
  }

  /** It has as few ones as row itself and every division of it. */
  lemma BestRowOnes(g: seq<bool>, row: seq<seq<bool>>, r: seq<seq<bool>>)
    requires BestRow(g, row, r)
    ensures IsRow(g, row) && IsRow(g, r) && |r| == |row| && RowOnes(g, r, |r|) <= RowOnes(g, row, |row|)
    ensures forall j | 0 <= j < |row| :: RowOnes(g, r, |r|) <= RowOnes(g, Candidate(g, row, j), |row|)
  {
    hide Candidate, RowOnes;
  }

  lemma RowChosen(g: seq<bool>, row: seq<seq<bool>>, best: int)
    requires IsRow(g, row) && -1 <= best < |row|
    requires best == -1 ==>
      forall j | 0 <= j < |row| :: RowOnes(g, row, |row|) <= RowOnes(g, Candidate(g, row, j), |row|)
    requires best >= 0 ==> FirstBest(g, row, best)
    ensures BestRow(g, row, if best == -1 then row else Candidate(g, row, best))
  {
    hide Candidate, RowOnes;
  }

  method ImproveRow(g: seq<bool>, k: nat, m: nat, matrix: array2<seq<bool>>, i: nat)
    requires Primitive(g) && matrix.Length0 == m && matrix.Length1 == k && Good(g, k, Rows(matrix)) && i < m
    modifies matrix
    ensures Good(g, k, Rows(matrix))
    ensures forall r | 0 <= r < m && r != i :: Rows(matrix)[r] == old(Rows(matrix))[r]
    ensures BestRow(g, old(Rows(matrix))[i], Rows(matrix)[i])
  {
    hide FindInverse, Mul, AnyRows, Systematic, RowOnes, DistinctPowers, BestRow;
    ghost var C := Rows(matrix);
    GFValid(g);
    assert IsVec(GF(g), C[i], k);
    var row := Rows(matrix)[i];
    var best := BestDivisor(g, row);
    RowChosen(g, row, best);
    if best != -1 {
      NonzeroEntry(g, k, C, i, best);
      var tmp := GF(g).inv(matrix[i, best]);
      ScaleCodingRow(GF(g), k, C, i, tmp);
      ScaleInPlace(GF(g), matrix, i, tmp);
      assert Rows(matrix)[i] == Scaled(GF(g), tmp, C[i]);
      assert Scaled(GF(g), tmp, C[i]) == Candidate(g, row, best);
    }
  }

  /** cauchy_improve_coding_matrix. */
  method ImproveCodingMatrix(g: seq<bool>, k: nat, m: nat, matrix: array2<seq<bool>>)
    requires Primitive(g) && matrix.Length0 == m && matrix.Length1 == k && Good(g, k, Rows(matrix))
    modifies matrix
    ensures Good(g, k, Rows(matrix)) && AllOnes(GF(g), Rows(matrix)[0])
    ensures Rows(matrix)[0] == Divided(g, old(Rows(matrix)), k, k)[0]
    ensures forall i | 1 <= i < m :: BestRow(g, Divided(g, old(Rows(matrix)), k, k)[i], Rows(matrix)[i])
  {
    hide Good, BestRow, Divided, AllOnes, DistinctPowers;
    GoodHasRows(g, k, Rows(matrix));
    ghost var D := Divided(g, Rows(matrix), k, k);
    DivideColumns(g, k, m, matrix);
    for i := 1 to m
      invariant Good(g, k, Rows(matrix)) && AllOnes(GF(g), Rows(matrix)[0]) && Rows(matrix)[0] == D[0]
      invariant forall r | i <= r < m :: Rows(matrix)[r] == D[r]
      invariant forall r | 1 <= r < i :: BestRow(g, D[r], Rows(matrix)[r])
    {
      ImproveRow(g, k, m, matrix, i);
    }
  }

  lemma GoodHasRows(g: seq<bool>, k: nat, C: seq<seq<seq<bool>>>)
    requires Good(g, k, C)
    ensures |C| > 0 && IsMatrix(GF(g), C, |C|, k)
  {
  }
}

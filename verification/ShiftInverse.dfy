/** Inversion by binary matrix (galois.c). A matrix is an array of words, one per row. The second stage of the
    elimination never updates mat; it stays right because the row being added is, by then, a unit row, so only
    entries in columns already dealt with would change. */
module ShiftInverse {
  import opened Fields
  import opened LinearAlgebra
  import opened RowReduction
  import opened Galois
  import opened LogTables

  lemma XorIsAdd(x: seq<bool>, y: seq<bool>)
    requires |x| == |y|
    ensures Xor(x, y) == AddScaled(F2, x, true, y)
  {
  }

  ghost predicate BitRows(M: seq<seq<bool>>, n: nat) { IsMatrix(F2, M, n, n) }

  // The rows before row i of column i have been cleared in M, which mat no longer records.
  ghost predicate Behind(mat: seq<seq<bool>>, M: seq<seq<bool>>, n: nat, i: nat)
    requires BitRows(mat, n) && BitRows(M, n)
  {
    forall r, c | 0 <= r < n && 0 <= c < i && c < n :: M[r][c] == mat[r][c]
  }

  method FindRow(mat: array<seq<bool>>, i: nat) returns (j: nat)
    requires BitRows(mat[..], mat.Length) && i < mat.Length
    ensures i < j <= mat.Length
    ensures j < mat.Length ==> mat[j][i]
    ensures forall r | i < r < j :: !mat[r][i]
  {
    j := i + 1;
    while j < mat.Length && !mat[j][i]
      invariant i < j <= mat.Length
      invariant forall r | i < r < j :: !mat[r][i]
    {
      j := j + 1;
    }
  }

  ghost predicate Stage(A: seq<seq<bool>>, M: seq<seq<bool>>, I: seq<seq<bool>>, n: nat, i: nat) {
    i <= n && SameSystem(F2, A, M, I, n) && Triangular(F2, M, n, i)
  }

  method SwapWords(a: array<seq<bool>>, i: nat, j: nat)
    requires i < a.Length && j < a.Length
    modifies a
    ensures a[..] == SwapRows(old(a[..]), i, j)
  {
    var tmp := a[i];
    a[i] := a[j];
    a[j] := tmp;
  }

  method AddWord(a: array<seq<bool>>, j: nat, i: nat)
    requires i < a.Length && j < a.Length && |a[i]| == |a[j]|
    modifies a
    ensures a[..] == AddRow(F2, old(a[..]), j, true, i)
  {
    XorIsAdd(a[j], a[i]);
    a[j] := Xor(a[j], a[i]);
  }

  // One pass of the first stage.
  method Triangulate(mat: array<seq<bool>>, inv: array<seq<bool>>, i: nat, ghost A: seq<seq<bool>>) returns (ok: bool)
    requires mat != inv && mat.Length == inv.Length && i < mat.Length && Stage(A, mat[..], inv[..], mat.Length, i)
    modifies mat, inv
    ensures ok ==> Stage(A, mat[..], inv[..], mat.Length, i + 1)
    ensures !ok ==> IsMatrix(F2, A, mat.Length, mat.Length) && !Nonsingular(F2, A, mat.Length)
  {
    hide SameSystem, Nonsingular;
    var rows := mat.Length;
    F2Valid();
    SystemShape(A, mat[..], inv[..], rows);
    if !mat[i][i] {
      var j := FindRow(mat, i);
      if j == rows {
        NoPivotMeansSingular(F2, A, mat[..], inv[..], rows, i);
        return false;
      }
      SwapKeepsSystem(F2, A, mat[..], inv[..], rows, i, j);
      SwapKeepsTriangular(F2, mat[..], rows, i, j);
      SwapWords(mat, i, j);
      SwapWords(inv, i, j);
    }
    ClearWordsBelow(mat, inv, i, A);
    return true;
  }

  method ClearWordsBelow(mat: array<seq<bool>>, inv: array<seq<bool>>, i: nat, ghost A: seq<seq<bool>>)
    requires mat != inv && mat.Length == inv.Length && i < mat.Length
    requires Stage(A, mat[..], inv[..], mat.Length, i) && mat[i][i]
    modifies mat, inv
    ensures Stage(A, mat[..], inv[..], mat.Length, i + 1)
  {
    hide SameSystem;
    var rows := mat.Length;
    F2Valid();
    SystemShape(A, mat[..], inv[..], rows);
    for j := i + 1 to rows
      invariant Stage(A, mat[..], inv[..], rows, i) && BitRows(mat[..], rows) && BitRows(inv[..], rows)
      invariant mat[..][i][i] && forall r | i < r < j :: !mat[..][r][i]
    {
      if mat[j][i] {
        ghost var M, I := mat[..], inv[..];
        ClearOne(A, M, I, rows, j, i);
        AddWord(mat, j, i);
        AddWord(inv, j, i);
      }
    }
    NextStage(A, mat[..], inv[..], rows, i);
  }

  lemma SystemShape(A: seq<seq<bool>>, M: seq<seq<bool>>, I: seq<seq<bool>>, n: nat)
    requires SameSystem(F2, A, M, I, n)
    ensures BitRows(A, n) && BitRows(M, n) && BitRows(I, n)
  {
  }

  lemma ClearOne(A: seq<seq<bool>>, M: seq<seq<bool>>, I: seq<seq<bool>>, n: nat, j: nat, i: nat)
    requires i < j < n && Stage(A, M, I, n, i) && M[i][i] && M[j][i]
    ensures Stage(A, AddRow(F2, M, j, true, i), AddRow(F2, I, j, true, i), n, i)
    ensures BitRows(AddRow(F2, M, j, true, i), n) && BitRows(AddRow(F2, I, j, true, i), n)
    ensures !AddRow(F2, M, j, true, i)[j][i]
  {
    hide SameSystem;
    F2Valid();
    SystemShape(A, M, I, n);
    AddRowKeepsSystem(F2, A, M, I, n, j, true, i);
    RowBelowPivot(F2, M, n, j, i);
    SystemShape(A, AddRow(F2, M, j, true, i), AddRow(F2, I, j, true, i), n);
  }

  lemma NextStage(A: seq<seq<bool>>, M: seq<seq<bool>>, I: seq<seq<bool>>, n: nat, i: nat)
    requires i < n && Stage(A, M, I, n, i) && M[i][i] && forall r | i < r < n :: !M[r][i]
    ensures Stage(A, M, I, n, i + 1)
  {
    hide SameSystem;
    SystemShape(A, M, I, n);
  }

  // What the second stage would make of mat, M, once the columns from i on are cleared.
  ghost predicate Undoing(A: seq<seq<bool>>, mat: seq<seq<bool>>, M: seq<seq<bool>>, I: seq<seq<bool>>, n: nat, i: nat)
  {
    SameSystem(F2, A, M, I, n) && Cleared(F2, M, n, i) && BitRows(mat, n) && Behind(mat, M, n, i)
  }

  method ClearWordsAbove(mat: array<seq<bool>>, inv: array<seq<bool>>, i: nat, ghost A: seq<seq<bool>>,
                         ghost M: seq<seq<bool>>) returns (ghost M': seq<seq<bool>>)
    requires mat != inv && mat.Length == inv.Length && i < mat.Length
    requires Undoing(A, mat[..], M, inv[..], mat.Length, i + 1)
    modifies inv
    ensures Undoing(A, mat[..], M', inv[..], mat.Length, i)
  {
    hide SameSystem;
    var rows := mat.Length;
    M' := M;
    SystemShape(A, M', inv[..], rows);
    for j := 0 to i
      invariant SameSystem(F2, A, M', inv[..], rows) && BitRows(M', rows) && BitRows(inv[..], rows)
      invariant Cleared(F2, M', rows, i + 1) && Behind(mat[..], M', rows, i)
      invariant forall r | 0 <= r < rows :: M'[r][i] == if r < j then false else mat[r][i]
    {
      if mat[j][i] {
        StillUndoing(A, mat[..], M', inv[..], rows, i, j);
        M' := AddRow(F2, M', j, true, i);
        AddWord(inv, j, i);
        SystemShape(A, M', inv[..], rows);
      }
    }
  }

  // Row i is a unit row by now.
  lemma StillUndoing(A: seq<seq<bool>>, mat: seq<seq<bool>>, M: seq<seq<bool>>, I: seq<seq<bool>>, n: nat, i: nat,
                     j: nat)
    requires j < i < n && SameSystem(F2, A, M, I, n) && Cleared(F2, M, n, i + 1) && M[j][i]
    ensures SameSystem(F2, A, AddRow(F2, M, j, true, i), AddRow(F2, I, j, true, i), n)
    ensures AddRow(F2, M, j, true, i) == M[j := M[j][i := false]]
  {
    F2Valid();
    AddRowKeepsSystem(F2, A, M, I, n, j, true, i);
    AddUnitRow(F2, M, n, j, i);
  }

  /** galois_invert_binary_matrix: gives up exactly when mat is singular, else inv is its inverse. */
  method InvertBinaryMatrix(mat: array<seq<bool>>, inv: array<seq<bool>>) returns (ok: bool)
    requires mat != inv && mat.Length == inv.Length && BitRows(mat[..], mat.Length)
    modifies mat, inv
    ensures ok <==> Nonsingular(F2, old(mat[..]), mat.Length)
    ensures ok ==> BitRows(inv[..], mat.Length) && Inverses(F2, old(mat[..]), inv[..], mat.Length)
  {
    hide SameSystem, Nonsingular, Inverses;
    var rows := mat.Length;
    ghost var A := mat[..];
    for i := 0 to rows
      invariant mat[..] == A && forall r | 0 <= r < i :: inv[r] == Basis(rows, r)
    {
      inv[i] := Basis(rows, i);
    }
    F2Valid();
    StartSystem(A, inv[..], rows);
    for i := 0 to rows
      invariant Stage(A, mat[..], inv[..], rows, i)
    {
      ok := Triangulate(mat, inv, i, A);
      if !ok {
        return;
      }
    }
    ghost var M := mat[..];
    SystemShape(A, M, inv[..], rows);
    for i := rows downto 0
      invariant Undoing(A, mat[..], M, inv[..], rows, i)
    {
      M := ClearWordsAbove(mat, inv, i, A, M);
    }
    SystemShape(A, M, inv[..], rows);
    ClearedGivesInverse(F2, A, M, inv[..], rows);
    ok := true;
  }

  lemma StartSystem(A: seq<seq<bool>>, I: seq<seq<bool>>, n: nat)
    requires BitRows(A, n) && |I| == n && forall r | 0 <= r < n :: I[r] == Basis(n, r)
    ensures Stage(A, A, I, n, 0)
  {
    F2Valid();
    SystemStart(F2, A, n);
    assert forall r | 0 <= r < n :: I[r] == Identity(F2, n)[r];
    assert I == Identity(F2, n);
  }

  // ---- The inverse of a word.

  ghost predicate Doublings(g: seq<bool>, y: seq<bool>, A: seq<seq<bool>>) {
    |y| == |g| && |A| == |g| && forall i | 0 <= i < |g| :: A[i] == Doubled(g, y, i)
  }

  // Bit c of a product, by columns.
  lemma {:induction false} MulColumn(g: seq<bool>, z: seq<bool>, y: seq<bool>, A: seq<seq<bool>>, c: nat, n: nat)
    requires Doublings(g, y, A) && |z| == |g| && c < |g| && n <= |g|
    ensures MulTo(g, z, y, n)[c] == DotTo(F2, z, MatVec(F2, A, UnitVec(F2, |g|, c)), n)
  {
    if n > 0 {
      F2Valid();
      MulColumn(g, z, y, A, c, n - 1);
      DotUnit(F2, A[n - 1], c);
    }
  }

  // Row 0 of the inverse of the doublings of y times y is 1.
  lemma InverseRow(g: seq<bool>, y: seq<bool>, A: seq<seq<bool>>, I: seq<seq<bool>>)
    requires |g| > 0 && Doublings(g, y, A) && BitRows(I, |g|) && Inverses(F2, A, I, |g|)
    ensures Mul(g, I[0], y) == One(|g|)
  {
    hide Mul, Inverses;
    forall c | 0 <= c < |g|
      ensures Mul(g, I[0], y)[c] == One(|g|)[c]
    {
      InverseBit(g, y, A, I, c);
    }
  }

  lemma InverseBit(g: seq<bool>, y: seq<bool>, A: seq<seq<bool>>, I: seq<seq<bool>>, c: nat)
    requires |g| > 0 && Doublings(g, y, A) && BitRows(I, |g|) && Inverses(F2, A, I, |g|) && c < |g|
    ensures Mul(g, I[0], y)[c] == One(|g|)[c]
  {
    hide DotTo, MulTo;
    var e := UnitVec(F2, |g|, c);
    MulColumn(g, I[0], y, A, c, |g|);
    assert IsVec(F2, e, |g|);
    assert MatVec(F2, I, MatVec(F2, A, e))[0] == e[0];
  }

  // What kills every doubling of y kills every multiple of y ...
  lemma {:induction false} KillsMultiples(g: seq<bool>, z: seq<bool>, y: seq<bool>, A: seq<seq<bool>>, x: seq<bool>,
                                          n: nat)
    requires Doublings(g, y, A) && |z| == |x| == |g| && n <= |g|
    requires forall i | 0 <= i < |g| :: !Dot(F2, A[i], x)
    ensures !Dot(F2, MulTo(g, z, y, n), x)
  {
    F2Valid();
    if n == 0 {
      DotZero(F2, Zero(|g|), x, |g|);
    } else {
      KillsMultiples(g, z, y, A, x, n - 1);
      XorIsAdd(MulTo(g, z, y, n - 1), A[n - 1]);
      DotAddScaled(F2, MulTo(g, z, y, n - 1), true, A[n - 1], x, |g|);
    }
  }

  // ... so the doublings of a word that has an inverse are independent.
  lemma UnitIsNonsingular(g: seq<bool>, y: seq<bool>, y': seq<bool>, A: seq<seq<bool>>)
    requires Doublings(g, y, A) && |y'| == |g| && Mul(g, y', y) == One(|g|)
    ensures Nonsingular(F2, A, |g|)
  {
    hide Mul, Dot;
    F2Valid();
    forall x | IsVec(F2, x, |g|) && MatVec(F2, A, x) == ZeroVec(F2, |g|)
      ensures x == ZeroVec(F2, |g|)
    {
      forall i | 0 <= i < |g|
        ensures !Dot(F2, A[i], x)
      {
        assert MatVec(F2, A, x)[i] == ZeroVec(F2, |g|)[i];
      }
      forall k | 0 <= k < |g|
        ensures !x[k]
      {
        BasisMultiple(g, y, y', k);
        KillsProduct(g, Mul(g, Basis(|g|, k), y'), y, A, x);
        assert Basis(|g|, k) == UnitVec(F2, |g|, k);
        DotUnit(F2, x, k);
      }
    }
  }

  lemma KillsProduct(g: seq<bool>, z: seq<bool>, y: seq<bool>, A: seq<seq<bool>>, x: seq<bool>)
    requires Doublings(g, y, A) && |z| == |x| == |g| && forall i | 0 <= i < |g| :: !Dot(F2, A[i], x)
    ensures !Dot(F2, Mul(g, z, y), x)
  {
    KillsMultiples(g, z, y, A, x, |g|);
  }

  lemma BasisMultiple(g: seq<bool>, y: seq<bool>, y': seq<bool>, k: nat)
    requires |y| == |y'| == |g| && Mul(g, y', y) == One(|g|)
    ensures Mul(g, Mul(g, Basis(|g|, k), y'), y) == Basis(|g|, k)
  {
    MulLaws(g, Basis(|g|, k), y', y);
    MulOne(g, Basis(|g|, k));
  }

  ghost predicate HasInverseWord(g: seq<bool>, y: seq<bool>)
    requires |y| == |g|
  {
    exists z | |z| == |g| :: Mul(g, z, y) == One(|g|)
  }

  method FillDoublings(g: seq<bool>, y: seq<bool>) returns (mat: array<seq<bool>>)
    requires |y| == |g| > 0
    ensures fresh(mat) && mat.Length == |g| && Doublings(g, y, mat[..])
  {
    hide Doubled;
    var w := |g|;
    mat := new seq<bool>[w](i => []);
    var shifted := y;
    DoubledStart(g, y);
    for i := 0 to w
      invariant shifted == Doubled(g, y, i)
      invariant forall j | 0 <= j < i :: mat[j] == Doubled(g, y, j)
    {
      mat[i] := shifted;
      shifted := ShiftLeft(g, shifted);
      DoubledNext(g, y, i);
    }
  }

  lemma DoubledStart(g: seq<bool>, y: seq<bool>)
    requires |y| == |g|
    ensures Doubled(g, y, 0) == y
  {
  }

  lemma DoubledNext(g: seq<bool>, y: seq<bool>, i: nat)
    requires |y| == |g|
    ensures Doubled(g, y, i + 1) == Double(g, Doubled(g, y, i))
  {
  }

  /** galois_shift_inverse: gives up exactly on words without an inverse, else returns the inverse. */
  method ShiftInverse(g: seq<bool>, y: seq<bool>) returns (ok: bool, z: seq<bool>)
    requires |y| == |g| > 0
    ensures ok <==> HasInverseWord(g, y)
    ensures ok ==> |z| == |g| && Mul(g, z, y) == One(|g|)
  {
    hide Doublings, Mul, Nonsingular, Inverses, One;
    var mat2 := FillDoublings(g, y);
    var inv2 := new seq<bool>[|g|](i => []);
    ghost var A := mat2[..];
    DoublingsAreRows(g, y, A);
    if HasInverseWord(g, y) {
      ghost var y' :| |y'| == |g| && Mul(g, y', y) == One(|g|);
      UnitIsNonsingular(g, y, y', A);
    }
    ok := InvertBinaryMatrix(mat2, inv2);
    z := inv2[0];
    if ok {
      InverseRow(g, y, A, inv2[..]);
    }
  }

  lemma DoublingsAreRows(g: seq<bool>, y: seq<bool>, A: seq<seq<bool>>)
    requires Doublings(g, y, A)
    ensures BitRows(A, |g|)
  {
  }

  /** In the field, every word but zero has an inverse. */
  lemma NonzeroHasInverse(g: seq<bool>, y: seq<bool>)
    requires Primitive(g) && |y| == |g|
    ensures HasInverseWord(g, y) <==> y != Zero(|g|)
  {
    if y != Zero(|g|) {
      HasInverse(g, y);
      MulCommutes(g, y, FindInverse(g, y, Order(g)));
    } else {
      forall z | |z| == |g|
        ensures Mul(g, z, y) != One(|g|)
      {
        MulRightZero(g, z);
        assert One(|g|)[0] != Zero(|g|)[0];
      }
    }
  }
}

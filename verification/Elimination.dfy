/** Matrix inversion and the two invertibility tests, in place. */
module Elimination {
  import opened Fields
  import opened LinearAlgebra
  import opened RowReduction

  // The rows of a matrix held in an array.
  function Rows<E>(a: array2<E>): (s: seq<seq<E>>)
    reads a
    ensures |s| == a.Length0 && forall i | 0 <= i < a.Length0 :: |s[i]| == a.Length1
    ensures forall i, j | 0 <= i < a.Length0 && 0 <= j < a.Length1 :: s[i][j] == a[i, j]
  {
    seq(a.Length0, i requires 0 <= i < a.Length0 reads a =>
      seq(a.Length1, j requires 0 <= j < a.Length1 reads a => a[i, j]))
  }

  method SwapInPlace<E>(a: array2<E>, i: nat, j: nat)
    requires i < a.Length0 && j < a.Length0
    modifies a
    ensures Rows(a) == SwapRows(old(Rows(a)), i, j)
  {
    for k := 0 to a.Length1
      invariant forall r, c | 0 <= r < a.Length0 && 0 <= c < a.Length1 ::
        a[r, c] == if c < k then SwapRows(old(Rows(a)), i, j)[r][c] else old(a[r, c])
    {
      var tmp := a[i, k];
      a[i, k] := a[j, k];
      a[j, k] := tmp;
    }
    assert forall r | 0 <= r < a.Length0 :: Rows(a)[r] == SwapRows(old(Rows(a)), i, j)[r];
  }

  method ScaleInPlace<E(!new)>(F: Field<E>, a: array2<E>, i: nat, t: E)
    requires i < a.Length0
    modifies a
    ensures Rows(a) == ScaleRow(F, old(Rows(a)), i, t)
  {
    for k := 0 to a.Length1
      invariant forall r, c | 0 <= r < a.Length0 && 0 <= c < a.Length1 ::
        a[r, c] == if c < k then ScaleRow(F, old(Rows(a)), i, t)[r][c] else old(a[r, c])
    {
      a[i, k] := F.mul(t, a[i, k]);
    }
    assert forall r | 0 <= r < a.Length0 :: Rows(a)[r] == ScaleRow(F, old(Rows(a)), i, t)[r];
  }

  method AddRowInPlace<E(!new)>(F: Field<E>, a: array2<E>, j: nat, t: E, i: nat)
    requires i < a.Length0 && j < a.Length0 && i != j
    modifies a
    ensures Rows(a) == AddRow(F, old(Rows(a)), j, t, i)
  {
    for k := 0 to a.Length1
      invariant forall r, c | 0 <= r < a.Length0 && 0 <= c < a.Length1 ::
        a[r, c] == if c < k then AddRow(F, old(Rows(a)), j, t, i)[r][c] else old(a[r, c])
    {
      a[j, k] := F.add(a[j, k], F.mul(t, a[i, k]));
    }
    assert forall r | 0 <= r < a.Length0 :: Rows(a)[r] == AddRow(F, old(Rows(a)), j, t, i)[r];
  }

  // The same operation for a factor of one, without a multiplication.
  method XorRowInPlace<E(!new)>(F: Field<E>, a: array2<E>, j: nat, i: nat)
    requires i < a.Length0 && j < a.Length0 && i != j
    requires F.Valid() && IsMatrix(F, Rows(a), a.Length0, a.Length1)
    modifies a
    ensures Rows(a) == AddRow(F, old(Rows(a)), j, F.one, i)
  {
    forall k | 0 <= k < a.Length1
      ensures F.mul(F.one, a[i, k]) == a[i, k]
    {
      assert IsVec(F, Rows(a)[i], a.Length1) && F.elem(Rows(a)[i][k]);
      F.MulOne(a[i, k]);
    }
    for k := 0 to a.Length1
      invariant forall r, c | 0 <= r < a.Length0 && 0 <= c < a.Length1 ::
        a[r, c] == if c < k then AddRow(F, old(Rows(a)), j, F.one, i)[r][c] else old(a[r, c])
    {
      a[j, k] := F.add(a[j, k], a[i, k]);
    }
    assert forall r | 0 <= r < a.Length0 :: Rows(a)[r] == AddRow(F, old(Rows(a)), j, F.one, i)[r];
  }

  // The first row from i on with a nonzero entry in column i, or n.
  method FindPivot<E(==,!new)>(F: Field<E>, mat: array2<E>, i: nat) returns (j: nat)
    requires i < mat.Length0 && i < mat.Length1
    ensures i <= j <= mat.Length0
    ensures j < mat.Length0 ==> mat[j, i] != F.zero
    ensures forall r | i <= r < j :: mat[r, i] == F.zero
  {
    j := i;
    while j < mat.Length0 && mat[j, i] == F.zero
      invariant i <= j <= mat.Length0
      invariant forall r | i <= r < j :: mat[r, i] == F.zero
    {
      j := j + 1;
    }
  }

  method SetIdentity<E(!new)>(F: Field<E>, inv: array2<E>)
    requires inv.Length0 == inv.Length1
    modifies inv
    ensures Rows(inv) == Identity(F, inv.Length0)
  {
    for i := 0 to inv.Length0
      invariant forall r, c | 0 <= r < i && 0 <= c < inv.Length1 :: inv[r, c] == if r == c then F.one else F.zero
    {
      for j := 0 to inv.Length1
        invariant forall r, c | 0 <= r < i && 0 <= c < inv.Length1 :: inv[r, c] == if r == c then F.one else F.zero
        invariant forall c | 0 <= c < j :: inv[i, c] == if i == c then F.one else F.zero
      {
        inv[i, j] := if i == j then F.one else F.zero;
      }
    }
    assert forall r | 0 <= r < inv.Length0 :: Rows(inv)[r] == Identity(F, inv.Length0)[r];
  }

  ghost predicate Square<E>(a: array2<E>, b: array2<E>) {
    a != b && a.Length0 == a.Length1 == b.Length0 == b.Length1
  }

  // Row j plus t times row i, by xor alone when t is one.
  method AddMultiple<E(==,!new)>(F: Field<E>, a: array2<E>, j: nat, t: E, i: nat)
    requires i < a.Length0 && j < a.Length0 && i != j
    requires F.Valid() && IsMatrix(F, Rows(a), a.Length0, a.Length1)
    modifies a
    ensures Rows(a) == AddRow(F, old(Rows(a)), j, t, i)
  {
    if t == F.one {
      XorRowInPlace(F, a, j, i);
    } else {
      AddRowInPlace(F, a, j, t, i);
    }
  }

  // One pass of the first stage: clear column i below the diagonal. The pivot is one already.
  method ClearBelow<E(==,!new)>(F: Field<E>, mat: array2<E>, inv: array2<E>, i: nat, ghost A: seq<seq<E>>)
    requires F.Valid() && Square(mat, inv) && i < mat.Length0
    requires SameSystem(F, A, Rows(mat), Rows(inv), mat.Length0)
    requires Triangular(F, Rows(mat), mat.Length0, i) && mat[i, i] == F.one
    modifies mat, inv
    ensures SameSystem(F, A, Rows(mat), Rows(inv), mat.Length0)
    ensures Triangular(F, Rows(mat), mat.Length0, i + 1)
  {
    hide SameSystem, Triangular, Pivoted, AddRow, IsMatrix;
    var n := mat.Length0;
    SystemShape(F, A, Rows(mat), Rows(inv), n);
    PivotStart(F, Rows(mat), n, i);
    for j := i + 1 to n
      invariant SameSystem(F, A, Rows(mat), Rows(inv), n) && Pivoted(F, Rows(mat), n, i, j)
    {
      ghost var M, I := Rows(mat), Rows(inv);
      SystemShape(F, A, M, I, n);
      PivotNext(F, M, n, i, j);
      var t := mat[j, i];
      if t != F.zero {
        AddRowKeepsSystem(F, A, M, I, n, j, t, i);
        AddMultiple(F, mat, j, t, i);
        AddMultiple(F, inv, j, t, i);
      }
    }
    PivotEnd(F, Rows(mat), n, i);
  }

  lemma SystemShape<E(!new)>(F: Field<E>, A: seq<seq<E>>, M: seq<seq<E>>, I: seq<seq<E>>, n: nat)
    requires SameSystem(F, A, M, I, n)
    ensures IsMatrix(F, A, n, n) && IsMatrix(F, M, n, n) && IsMatrix(F, I, n, n)
  {
  }

  // Bring a nonzero entry to (i, i), or report that there is none.
  method MakePivot<E(==,!new)>(F: Field<E>, mat: array2<E>, inv: array2<E>, i: nat, ghost A: seq<seq<E>>)
    returns (ok: bool)
    requires F.Valid() && Square(mat, inv) && i < mat.Length0
    requires SameSystem(F, A, Rows(mat), Rows(inv), mat.Length0)
    requires Triangular(F, Rows(mat), mat.Length0, i)
    modifies mat, inv
    ensures SameSystem(F, A, Rows(mat), Rows(inv), mat.Length0)
    ensures Triangular(F, Rows(mat), mat.Length0, i)
    ensures ok ==> mat[i, i] != F.zero
    ensures !ok ==> !Nonsingular(F, A, mat.Length0)
  {
    if mat[i, i] == F.zero {
      var n := mat.Length0;
      var j := FindPivot(F, mat, i);
      if j == n {
        NoPivotMeansSingular(F, A, Rows(mat), Rows(inv), n, i);
        return false;
      }
      SwapKeepsSystem(F, A, Rows(mat), Rows(inv), n, i, j);
      SwapKeepsTriangular(F, Rows(mat), n, i, j);
      SwapInPlace(mat, i, j);
      SwapInPlace(inv, i, j);
    }
    return true;
  }

  // Make the pivot one.
  method NormalizeRow<E(==,!new)>(F: Field<E>, mat: array2<E>, inv: array2<E>, i: nat, ghost A: seq<seq<E>>)
    requires F.Valid() && Square(mat, inv) && i < mat.Length0
    requires SameSystem(F, A, Rows(mat), Rows(inv), mat.Length0)
    requires Triangular(F, Rows(mat), mat.Length0, i) && mat[i, i] != F.zero
    modifies mat, inv
    ensures SameSystem(F, A, Rows(mat), Rows(inv), mat.Length0)
    ensures Triangular(F, Rows(mat), mat.Length0, i) && mat[i, i] == F.one
  {
    var tmp := mat[i, i];
    if tmp != F.one {
      var inverse := F.inv(tmp);
      ScaleMakesPivot(F, Rows(mat), mat.Length0, i);
      ScaleKeepsSystem(F, A, Rows(mat), Rows(inv), mat.Length0, i, inverse);
      ScaleInPlace(F, mat, i, inverse);
      ScaleInPlace(F, inv, i, inverse);
    }
  }

  method SetEntry<E>(a: array2<E>, j: nat, i: nat, v: E)
    requires j < a.Length0 && i < a.Length1
    modifies a
    ensures Rows(a) == old(Rows(a))[j := old(Rows(a))[j][i := v]]
  {
    a[j, i] := v;
    assert forall r | 0 <= r < a.Length0 :: Rows(a)[r] == old(Rows(a))[j := old(Rows(a))[j][i := v]][r];
  }

  // One pass of the second stage. Row i is a unit row by now, so only one entry of mat changes.
  method ClearAbove<E(==,!new)>(F: Field<E>, mat: array2<E>, inv: array2<E>, i: nat, ghost A: seq<seq<E>>)
    requires F.Valid() && Square(mat, inv) && i < mat.Length0
    requires SameSystem(F, A, Rows(mat), Rows(inv), mat.Length0)
    requires Cleared(F, Rows(mat), mat.Length0, i + 1)
    modifies mat, inv
    ensures SameSystem(F, A, Rows(mat), Rows(inv), mat.Length0)
    ensures Cleared(F, Rows(mat), mat.Length0, i)
  {
    hide SameSystem, Cleared, ClearedTo, AddRow, IsMatrix, Rows;
    var n := mat.Length0;
    SystemShape(F, A, Rows(mat), Rows(inv), n);
    ClearedStart(F, Rows(mat), n, i);
    for j := 0 to i
      invariant SameSystem(F, A, Rows(mat), Rows(inv), n) && ClearedTo(F, Rows(mat), n, i, j)
    {
      ghost var M, I := Rows(mat), Rows(inv);
      SystemShape(F, A, M, I, n);
      ClearedNext(F, M, n, i, j);
      var tmp := mat[j, i];
      if tmp != F.zero {
        AddRowKeepsSystem(F, A, M, I, n, j, tmp, i);
        SetEntry(mat, j, i, F.zero);
        AddRowInPlace(F, inv, j, tmp, i);
      }
    }
    ClearedEnd(F, Rows(mat), n, i);
  }

  /** jerasure_invert_matrix: 0 and the inverse exactly when mat is nonsingular, else -1. */
  method InvertMatrix<E(==,!new)>(F: Field<E>, mat: array2<E>, inv: array2<E>) returns (r: int)
    requires F.Valid() && Square(mat, inv) && IsMatrix(F, Rows(mat), mat.Length0, mat.Length0)
    modifies mat, inv
    ensures r == 0 || r == -1
    ensures r == 0 <==> Nonsingular(F, old(Rows(mat)), mat.Length0)
    ensures IsMatrix(F, Rows(inv), mat.Length0, mat.Length0)
    ensures r == 0 ==> Inverses(F, old(Rows(mat)), Rows(inv), mat.Length0)
  {
    var n := mat.Length0;
    ghost var A := Rows(mat);
    SetIdentity(F, inv);
    SystemStart(F, A, n);
    for i := 0 to n
      invariant SameSystem(F, A, Rows(mat), Rows(inv), n)
      invariant Triangular(F, Rows(mat), n, i)
    {
      var ok := MakePivot(F, mat, inv, i, A);
      if !ok { return -1; }
      NormalizeRow(F, mat, inv, i, A);
      ClearBelow(F, mat, inv, i, A);
    }
    for i := n downto 0
      invariant SameSystem(F, A, Rows(mat), Rows(inv), n)
      invariant Cleared(F, Rows(mat), n, i)
    {
      ClearAbove(F, mat, inv, i, A);
    }
    ClearedGivesInverse(F, A, Rows(mat), Rows(inv), n);
    return 0;
  }

  method ClearBitsAbove(mat: array2<bool>, inv: array2<bool>, i: nat, ghost A: seq<seq<bool>>)
    requires Square(mat, inv) && i < mat.Length0
    requires SameSystem(F2, A, Rows(mat), Rows(inv), mat.Length0)
    requires Cleared(F2, Rows(mat), mat.Length0, i + 1)
    modifies mat, inv
    ensures SameSystem(F2, A, Rows(mat), Rows(inv), mat.Length0)
    ensures Cleared(F2, Rows(mat), mat.Length0, i)
  {
    hide SameSystem, Cleared, ClearedTo, AddRow, IsMatrix, Rows;
    var n := mat.Length0;
    F2Valid();
    SystemShape(F2, A, Rows(mat), Rows(inv), n);
    ClearedStart(F2, Rows(mat), n, i);
    for j := 0 to i
      invariant SameSystem(F2, A, Rows(mat), Rows(inv), n) && ClearedTo(F2, Rows(mat), n, i, j)
    {
      ghost var M, I := Rows(mat), Rows(inv);
      SystemShape(F2, A, M, I, n);
      ClearedNext(F2, M, n, i, j);
      if mat[j, i] {
        AddRowKeepsSystem(F2, A, M, I, n, j, true, i);
        XorRowInPlace(F2, mat, j, i);
        XorRowInPlace(F2, inv, j, i);
      }
    }
    ClearedEnd(F2, Rows(mat), n, i);
  }

  method XorBits(a: array2<bool>, j: nat, i: nat)
    requires i < a.Length0 && j < a.Length0 && i != j
    modifies a
    ensures Rows(a) == AddRow(F2, old(Rows(a)), j, true, i)
  {
    F2Valid();
    XorRowInPlace(F2, a, j, i);
  }

  /** jerasure_invert_bitmatrix: every nonzero entry is one, so no row is scaled, and the second stage
      adds whole rows to both matrices. */
  method InvertBitmatrix(mat: array2<bool>, inv: array2<bool>) returns (r: int)
    requires Square(mat, inv)
    modifies mat, inv
    ensures r == 0 || r == -1
    ensures r == 0 <==> Nonsingular(F2, old(Rows(mat)), mat.Length0)
    ensures r == 0 ==> Inverses(F2, old(Rows(mat)), Rows(inv), mat.Length0)
  {
    var n := mat.Length0;
    ghost var A := Rows(mat);
    F2Valid();
    SetIdentity(F2, inv);
    SystemStart(F2, A, n);
    for i := 0 to n
      invariant SameSystem(F2, A, Rows(mat), Rows(inv), n)
      invariant Triangular(F2, Rows(mat), n, i)
    {
      var ok := MakePivot(F2, mat, inv, i, A);
      if !ok { return -1; }
      assert mat[i, i] == F2.one;
      ClearBelow(F2, mat, inv, i, A);
    }
    for i := n downto 0
      invariant SameSystem(F2, A, Rows(mat), Rows(inv), n)
      invariant Cleared(F2, Rows(mat), n, i)
    {
      ClearBitsAbove(mat, inv, i, A);
    }
    ClearedGivesInverse(F2, A, Rows(mat), Rows(inv), n);
    return 0;
  }

  // The first stage on mat alone, for the tests that need no inverse. The ghost record I stands in for it.
  method TestPivot<E(==,!new)>(F: Field<E>, mat: array2<E>, i: nat, ghost A: seq<seq<E>>, ghost I: seq<seq<E>>)
    returns (ok: bool, ghost I': seq<seq<E>>)
    requires F.Valid() && mat.Length0 == mat.Length1 && i < mat.Length0
    requires SameSystem(F, A, Rows(mat), I, mat.Length0) && Triangular(F, Rows(mat), mat.Length0, i)
    modifies mat
    ensures SameSystem(F, A, Rows(mat), I', mat.Length0) && Triangular(F, Rows(mat), mat.Length0, i)
    ensures ok ==> mat[i, i] != F.zero
    ensures !ok ==> !Nonsingular(F, A, mat.Length0)
  {
    I' := I;
    ok := true;
    if mat[i, i] == F.zero {
      var n := mat.Length0;
      var j := FindPivot(F, mat, i);
      if j == n {
        NoPivotMeansSingular(F, A, Rows(mat), I', n, i);
        return false, I';
      }
      SwapKeepsSystem(F, A, Rows(mat), I', n, i, j);
      SwapKeepsTriangular(F, Rows(mat), n, i, j);
      SwapInPlace(mat, i, j);
      I' := SwapRows(I', i, j);
    }
  }

  method TestScale<E(==,!new)>(F: Field<E>, mat: array2<E>, i: nat, ghost A: seq<seq<E>>, ghost I: seq<seq<E>>)
    returns (ghost I': seq<seq<E>>)
    requires F.Valid() && mat.Length0 == mat.Length1 && i < mat.Length0
    requires SameSystem(F, A, Rows(mat), I, mat.Length0) && Triangular(F, Rows(mat), mat.Length0, i)
    requires mat[i, i] != F.zero
    modifies mat
    ensures SameSystem(F, A, Rows(mat), I', mat.Length0) && Triangular(F, Rows(mat), mat.Length0, i)
    ensures mat[i, i] == F.one
  {
    I' := I;
    var tmp := mat[i, i];
    if tmp != F.one {
      var inverse := F.inv(tmp);
      ScaleMakesPivot(F, Rows(mat), mat.Length0, i);
      ScaleKeepsSystem(F, A, Rows(mat), I', mat.Length0, i, inverse);
      ScaleInPlace(F, mat, i, inverse);
      I' := ScaleRow(F, I', i, inverse);
    }
  }

  method TestPass<E(==,!new)>(F: Field<E>, mat: array2<E>, i: nat, ghost A: seq<seq<E>>, ghost I: seq<seq<E>>)
    returns (ok: bool, ghost I': seq<seq<E>>)
    requires F.Valid() && mat.Length0 == mat.Length1 && i < mat.Length0
    requires SameSystem(F, A, Rows(mat), I, mat.Length0) && Triangular(F, Rows(mat), mat.Length0, i)
    modifies mat
    ensures SameSystem(F, A, Rows(mat), I', mat.Length0)
    ensures !ok ==> !Nonsingular(F, A, mat.Length0)
    ensures ok ==> Triangular(F, Rows(mat), mat.Length0, i + 1)
  {
    hide SameSystem, Triangular, Pivoted, AddRow, IsMatrix, Nonsingular;
    var n := mat.Length0;
    SystemShape(F, A, Rows(mat), I, n);
    ok, I' := TestPivot(F, mat, i, A, I);
    if !ok {
      return;
    }
    I' := TestScale(F, mat, i, A, I');
    SystemShape(F, A, Rows(mat), I', n);
    PivotStart(F, Rows(mat), n, i);
    for j := i + 1 to n
      invariant SameSystem(F, A, Rows(mat), I', n) && Pivoted(F, Rows(mat), n, i, j)
    {
      ghost var M := Rows(mat);
      SystemShape(F, A, M, I', n);
      PivotNext(F, M, n, i, j);
      var t := mat[j, i];
      if t != F.zero {
        AddRowKeepsSystem(F, A, M, I', n, j, t, i);
        RecordRow(F, I', n, j, i);
        AddMultiple(F, mat, j, t, i);
        I' := AddRow(F, I', j, t, i);
      }
    }
    PivotEnd(F, Rows(mat), n, i);
  }

  lemma RecordRow<E(!new)>(F: Field<E>, I: seq<seq<E>>, n: nat, j: nat, i: nat)
    requires IsMatrix(F, I, n, n) && i < n && j < n
    ensures |I| == n && |I[i]| == |I[j]| == n
  {
  }

  /** jerasure_invertible_matrix, and at F2 jerasure_invertible_bitmatrix: 1 exactly when mat is
      nonsingular, else 0. */
  method Invertible<E(==,!new)>(F: Field<E>, mat: array2<E>) returns (r: int)
    requires F.Valid() && mat.Length0 == mat.Length1 && IsMatrix(F, Rows(mat), mat.Length0, mat.Length0)
    modifies mat
    ensures r == 0 || r == 1
    ensures r == 1 <==> Nonsingular(F, old(Rows(mat)), mat.Length0)
  {
    var n := mat.Length0;
    ghost var A := Rows(mat);
    ghost var I := Identity(F, n);
    SystemStart(F, A, n);
    for i := 0 to n
      invariant SameSystem(F, A, Rows(mat), I, n)
      invariant Triangular(F, Rows(mat), n, i)
    {
      var ok;
      ok, I := TestPass(F, mat, i, A, I);
      if !ok { return 0; }
    }
    TriangularMeansNonsingular(F, A, Rows(mat), I, n);
    return 1;
  }
}

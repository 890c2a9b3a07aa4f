/** What elimination does to a matrix and to the record kept beside it, on values.

    Every row operation is applied both to the matrix M and to the record I. What all of them keep is
    that M*x = I*y has the same solutions as A*x = y, where A is the matrix at the start. */
module RowReduction {
  import opened Fields
  import opened LinearAlgebra

  ghost predicate SameAt<E(!new)>(F: Field<E>, A: seq<seq<E>>, M: seq<seq<E>>, I: seq<seq<E>>, n: nat, x: seq<E>,
                                  y: seq<E>)
    requires IsMatrix(F, A, n, n) && IsMatrix(F, M, n, n) && IsMatrix(F, I, n, n)
    requires IsVec(F, x, n) && IsVec(F, y, n)
  {
    MatVec(F, A, x) == y <==> MatVec(F, M, x) == MatVec(F, I, y)
  }

  ghost predicate SameSystem<E(!new)>(F: Field<E>, A: seq<seq<E>>, M: seq<seq<E>>, I: seq<seq<E>>, n: nat) {
    && IsMatrix(F, A, n, n) && IsMatrix(F, M, n, n) && IsMatrix(F, I, n, n)
    && forall x, y | IsVec(F, x, n) && IsVec(F, y, n) :: SameAt(F, A, M, I, n, x, y)
  }

  lemma SystemStart<E(!new)>(F: Field<E>, A: seq<seq<E>>, n: nat)
    requires F.Valid() && IsMatrix(F, A, n, n)
    ensures SameSystem(F, A, A, Identity(F, n), n)
  {
    forall x, y | IsVec(F, x, n) && IsVec(F, y, n)
      ensures IsMatrix(F, Identity(F, n), n, n) && SameAt(F, A, A, Identity(F, n), n, x, y)
    {
      IdentityMatVec(F, y);
    }
    IdentityMatVec(F, ZeroVec(F, n));
  }

  function SwapRows<T>(M: seq<T>, i: nat, j: nat): seq<T>
    requires i < |M| && j < |M|
  {
    M[i := M[j]][j := M[i]]
  }

  function AddRow<E(!new)>(F: Field<E>, M: seq<seq<E>>, j: nat, t: E, i: nat): seq<seq<E>>
    requires i < |M| && j < |M| && |M[i]| == |M[j]|
  {
    M[j := AddScaled(F, M[j], t, M[i])]
  }

  function ScaleRow<E(!new)>(F: Field<E>, M: seq<seq<E>>, i: nat, t: E): seq<seq<E>>
    requires i < |M|
  {
    M[i := Scaled(F, t, M[i])]
  }

  lemma RowOpsKeepShape<E(!new)>(F: Field<E>, M: seq<seq<E>>, n: nat, j: nat, t: E, i: nat)
    requires F.Valid() && IsMatrix(F, M, n, n) && i < n && j < n && F.elem(t)
    ensures IsMatrix(F, SwapRows(M, i, j), n, n)
    ensures IsMatrix(F, AddRow(F, M, j, t, i), n, n)
    ensures IsMatrix(F, ScaleRow(F, M, j, t), n, n)
  {
    forall c | 0 <= c < n
      ensures F.elem(AddScaled(F, M[j], t, M[i])[c]) && F.elem(Scaled(F, t, M[j])[c])
    {
      F.Closed(t, M[i][c]);
      F.Closed(t, M[j][c]);
      F.Closed(M[j][c], F.mul(t, M[i][c]));
    }
  }

  lemma MatVecSwap<E(!new)>(F: Field<E>, M: seq<seq<E>>, x: seq<E>, i: nat, j: nat)
    requires i < |M| && j < |M| && forall r | 0 <= r < |M| :: |M[r]| == |x|
    ensures MatVec(F, SwapRows(M, i, j), x) == SwapRows(MatVec(F, M, x), i, j)
  {
    hide Dot;
  }

  lemma SwapsAgree<T>(u: seq<T>, v: seq<T>, i: nat, j: nat)
    requires i < |u| == |v| && j < |u|
    ensures SwapRows(u, i, j) == SwapRows(v, i, j) <==> u == v
  {
    assert SwapRows(SwapRows(u, i, j), i, j) == u && SwapRows(SwapRows(v, i, j), i, j) == v;
  }

  lemma SwapKeepsSystem<E(!new)>(F: Field<E>, A: seq<seq<E>>, M: seq<seq<E>>, I: seq<seq<E>>, n: nat, i: nat, j: nat)
    requires F.Valid() && i < n && j < n && SameSystem(F, A, M, I, n)
    ensures SameSystem(F, A, SwapRows(M, i, j), SwapRows(I, i, j), n)
  {
    RowOpsKeepShape(F, M, n, j, F.one, i);
    RowOpsKeepShape(F, I, n, j, F.one, i);
    forall x, y | IsVec(F, x, n) && IsVec(F, y, n)
      ensures SameAt(F, A, SwapRows(M, i, j), SwapRows(I, i, j), n, x, y)
    {
      assert SameAt(F, A, M, I, n, x, y);
      MatVecSwap(F, M, x, i, j);
      MatVecSwap(F, I, y, i, j);
      SwapsAgree(MatVec(F, M, x), MatVec(F, I, y), i, j);
    }
  }

  lemma MatVecAddRow<E(!new)>(F: Field<E>, M: seq<seq<E>>, n: nat, j: nat, t: E, i: nat, x: seq<E>)
    requires F.Valid() && i < n && j < n && i != j && F.elem(t) && IsMatrix(F, M, n, n) && IsVec(F, x, n)
    ensures var u := MatVec(F, M, x);
      |M[i]| == |M[j]| && IsVec(F, u, n) && IsMatrix(F, AddRow(F, M, j, t, i), n, n) &&
      MatVec(F, AddRow(F, M, j, t, i), x) == u[j := F.add(u[j], F.mul(t, u[i]))]
  {
    hide DotTo;
    RowOpsKeepShape(F, M, n, j, t, i);
    MatVecIsVec(F, M, x, n, n);
    assert IsVec(F, M[i], n) && IsVec(F, M[j], n);
    DotAddScaled(F, M[j], t, M[i], x, n);
    var u, u' := MatVec(F, M, x), MatVec(F, AddRow(F, M, j, t, i), x);
    assert forall r | 0 <= r < n && r != j :: u'[r] == u[r];
  }

  // Adding t times position i to position j can be undone.
  lemma AddUndone<E(!new)>(F: Field<E>, u: seq<E>, v: seq<E>, n: nat, j: nat, t: E, i: nat)
    requires F.Valid() && i < n && j < n && i != j && F.elem(t) && IsVec(F, u, n) && IsVec(F, v, n)
    ensures u[j := F.add(u[j], F.mul(t, u[i]))] == v[j := F.add(v[j], F.mul(t, v[i]))] <==> u == v
  {
    var u', v' := u[j := F.add(u[j], F.mul(t, u[i]))], v[j := F.add(v[j], F.mul(t, v[i]))];
    if u' == v' {
      assert u'[i] == u[i] && v'[i] == v[i] && u'[j] == v'[j];
      F.Closed(t, u[i]);
      F.AddCancel(u[j], F.mul(t, u[i]));
      F.AddCancel(v[j], F.mul(t, u[i]));
      assert forall r | 0 <= r < n && r != j :: u'[r] == u[r] && v'[r] == v[r];
    }
  }

  lemma AddRowKeepsSystem<E(!new)>(F: Field<E>, A: seq<seq<E>>, M: seq<seq<E>>, I: seq<seq<E>>, n: nat, j: nat, t: E,
                                   i: nat)
    requires F.Valid() && i < n && j < n && i != j && F.elem(t) && SameSystem(F, A, M, I, n)
    ensures SameSystem(F, A, AddRow(F, M, j, t, i), AddRow(F, I, j, t, i), n)
  {
    hide MatVec, AddRow;
    RowOpsKeepShape(F, M, n, j, t, i);
    RowOpsKeepShape(F, I, n, j, t, i);
    forall x, y | IsVec(F, x, n) && IsVec(F, y, n)
      ensures SameAt(F, A, AddRow(F, M, j, t, i), AddRow(F, I, j, t, i), n, x, y)
    {
      assert SameAt(F, A, M, I, n, x, y);
      MatVecAddRow(F, M, n, j, t, i, x);
      MatVecAddRow(F, I, n, j, t, i, y);
      AddUndone(F, MatVec(F, M, x), MatVec(F, I, y), n, j, t, i);
    }
  }

  lemma ScaleKeepsSystem<E(!new)>(F: Field<E>, A: seq<seq<E>>, M: seq<seq<E>>, I: seq<seq<E>>, n: nat, i: nat, t: E)
    requires F.Valid() && i < n && F.elem(t) && t != F.zero && SameSystem(F, A, M, I, n)
    ensures SameSystem(F, A, ScaleRow(F, M, i, t), ScaleRow(F, I, i, t), n)
  {
    RowOpsKeepShape(F, M, n, i, t, i);
    RowOpsKeepShape(F, I, n, i, t, i);
    forall x, y | IsVec(F, x, n) && IsVec(F, y, n)
      ensures SameAt(F, A, ScaleRow(F, M, i, t), ScaleRow(F, I, i, t), n, x, y)
    {
      assert SameAt(F, A, M, I, n, x, y);
      var u, v := MatVec(F, M, x), MatVec(F, I, y);
      MatVecIsVec(F, M, x, n, n);
      MatVecIsVec(F, I, y, n, n);
      DotScaled(F, t, M[i], x, n);
      DotScaled(F, t, I[i], y, n);
      var u', v' := MatVec(F, ScaleRow(F, M, i, t), x), MatVec(F, ScaleRow(F, I, i, t), y);
      assert u' == u[i := F.mul(t, u[i])] && v' == v[i := F.mul(t, v[i])];
      if u' == v' {
        assert u'[i] == v'[i];
        F.InvCancel(t, u[i]);
        F.InvCancel(t, v[i]);
        assert forall r | 0 <= r < n && r != i :: u'[r] == u[r] && v'[r] == v[r];
        assert u == v;
      }
    }
  }

  // Columns below i are those of a unit upper triangular matrix.
  ghost predicate Triangular<E(!new)>(F: Field<E>, M: seq<seq<E>>, n: nat, i: nat)
    requires IsMatrix(F, M, n, n) && i <= n
  {
    forall c | 0 <= c < i :: M[c][c] == F.one && forall r | c < r < n :: M[r][c] == F.zero
  }

  // A triangular matrix whose columns from i on have been cleared above the diagonal.
  ghost predicate Cleared<E(!new)>(F: Field<E>, M: seq<seq<E>>, n: nat, i: int)
    requires IsMatrix(F, M, n, n)
  {
    && Triangular(F, M, n, n)
    && forall c, r | i <= c < n && 0 <= r < c :: M[r][c] == F.zero
  }

  // Having every column cleared, the record is the inverse of the matrix at the start.
  lemma ClearedGivesInverse<E(!new)>(F: Field<E>, A: seq<seq<E>>, M: seq<seq<E>>, I: seq<seq<E>>, n: nat)
    requires F.Valid() && SameSystem(F, A, M, I, n) && Cleared(F, M, n, 0)
    ensures Inverses(F, A, I, n) && Nonsingular(F, A, n)
  {
    forall r, c | 0 <= r < n && 0 <= c < n
      ensures M[r][c] == Identity(F, n)[r][c]
    {
      if r > c {
        assert M[c][c] == F.one;
      }
    }
    assert forall r | 0 <= r < n :: M[r] == Identity(F, n)[r];
    assert M == Identity(F, n);
    forall x | IsVec(F, x, n)
      ensures MatVec(F, I, MatVec(F, A, x)) == x && MatVec(F, A, MatVec(F, I, x)) == x
    {
      var y, z := MatVec(F, A, x), MatVec(F, I, x);
      MatVecIsVec(F, A, x, n, n);
      MatVecIsVec(F, I, x, n, n);
      IdentityMatVec(F, x);
      IdentityMatVec(F, z);
      assert SameAt(F, A, M, I, n, x, y) && SameAt(F, A, M, I, n, z, x);
    }
    forall x | IsVec(F, x, n) && MatVec(F, A, x) == ZeroVec(F, n)
      ensures x == ZeroVec(F, n)
    {
      MatVecZero(F, I, n, n);
    }
  }

  lemma DotUpdate<E(!new)>(F: Field<E>, a: seq<E>, x: seq<E>, n: nat, j: nat, v: E)
    requires F.Valid() && n <= |a| == |x| && j < n && F.elem(v) && x[j] == F.zero
    requires IsVec(F, a, |a|) && IsVec(F, x, |x|)
    ensures DotTo(F, a, x[j := v], n) == F.add(DotTo(F, a, x, n), F.mul(a[j], v))
  {
    var d := DotTo(F, a, x, n - 1);
    DotElem(F, a, x, n - 1);
    F.Closed(a[j], v);
    if j == n - 1 {
      DotCong(F, a, x[j := v], a, x, n - 1);
      F.MulZero(a[j]);
      F.AddZero(d);
    } else {
      DotUpdate(F, a, x, n - 1, j, v);
      F.Closed(a[n - 1], x[n - 1]);
      var p, q := F.mul(a[j], v), F.mul(a[n - 1], x[n - 1]);
      assert F.AddLaws(d, p, q);
      assert F.AddLaws(p, q, d);
      assert F.AddLaws(d, q, p);
    }
  }

  // Back substitution: a triangular stretch followed by a column without a pivot leaves a nonzero
  // vector that the matrix sends to zero.
  lemma KernelVector<E(!new)>(F: Field<E>, M: seq<seq<E>>, n: nat, i: nat, j: nat) returns (x: seq<E>)
    requires F.Valid() && IsMatrix(F, M, n, n) && j <= i < n && Triangular(F, M, n, i)
    requires forall r | i <= r < n :: M[r][i] == F.zero
    ensures IsVec(F, x, n) && x[i] == F.one && forall c | i < c < n || 0 <= c < j :: x[c] == F.zero
    ensures forall r | j <= r < n :: Dot(F, M[r], x) == F.zero
    decreases i - j
  {
    if j == i {
      x := UnitVec(F, n, i);
      forall r | i <= r < n
        ensures Dot(F, M[r], x) == F.zero
      {
        DotUnit(F, M[r], i);
      }
    } else {
      var z := KernelVector(F, M, n, i, j + 1);
      DotElem(F, M[j], z, n);
      var v := Dot(F, M[j], z);
      x := z[j := v];
      forall r | j <= r < n
        ensures Dot(F, M[r], x) == F.zero
      {
        DotUpdate(F, M[r], z, n, j, v);
        assert M[j][j] == F.one;
        F.MulOne(v);
        F.MulZero(v);
        F.AddZero(v);
        F.AddZero(F.zero);
      }
    }
  }

  lemma NoPivotMeansSingular<E(!new)>(F: Field<E>, A: seq<seq<E>>, M: seq<seq<E>>, I: seq<seq<E>>, n: nat, i: nat)
    requires F.Valid() && SameSystem(F, A, M, I, n) && i < n && Triangular(F, M, n, i)
    requires forall r | i <= r < n :: M[r][i] == F.zero
    ensures !Nonsingular(F, A, n)
  {
    var x := KernelVector(F, M, n, i, 0);
    var o := ZeroVec(F, n);
    assert MatVec(F, M, x) == o;
    MatVecZero(F, I, n, n);
    assert SameAt(F, A, M, I, n, x, o);
    assert x[i] != o[i];
  }

  // Once row i is the i-th unit row, adding it to row j only clears one position.
  lemma AddUnitRow<E(!new)>(F: Field<E>, M: seq<seq<E>>, n: nat, j: nat, i: nat)
    requires F.Valid() && IsMatrix(F, M, n, n) && j < i < n && Cleared(F, M, n, i + 1)
    ensures AddScaled(F, M[j], M[j][i], M[i]) == M[j][i := F.zero]
  {
    forall c | 0 <= c < n
      ensures AddScaled(F, M[j], M[j][i], M[i])[c] == M[j][i := F.zero][c]
    {
      assert c < i ==> M[c][c] == F.one;
      F.MulOne(M[j][i]);
      F.MulZero(M[j][i]);
      F.AddZero(M[j][c]);
    }
  }

  lemma SwapKeepsTriangular<E(!new)>(F: Field<E>, M: seq<seq<E>>, n: nat, i: nat, j: nat)
    requires F.Valid() && IsMatrix(F, M, n, n) && i <= j < n && Triangular(F, M, n, i)
    ensures IsMatrix(F, SwapRows(M, i, j), n, n) && Triangular(F, SwapRows(M, i, j), n, i)
  {
    RowOpsKeepShape(F, M, n, j, F.one, i);
  }

  // Dividing row i by its entry in column i.
  lemma ScaleMakesPivot<E(!new)>(F: Field<E>, M: seq<seq<E>>, n: nat, i: nat)
    requires F.Valid() && IsMatrix(F, M, n, n) && i < n && Triangular(F, M, n, i) && M[i][i] != F.zero
    ensures F.elem(F.inv(M[i][i])) && F.inv(M[i][i]) != F.zero
    ensures IsMatrix(F, ScaleRow(F, M, i, F.inv(M[i][i])), n, n)
    ensures Triangular(F, ScaleRow(F, M, i, F.inv(M[i][i])), n, i)
    ensures ScaleRow(F, M, i, F.inv(M[i][i]))[i][i] == F.one
  {
    var t := M[i][i];
    F.InvCancel(t, t);
    F.MulZero(F.inv(t));
    RowOpsKeepShape(F, M, n, i, F.inv(t), i);
  }

  // A unit triangular matrix sends only zero to zero.
  lemma TriangularIsNonsingular<E(!new)>(F: Field<E>, M: seq<seq<E>>, n: nat, x: seq<E>, i: nat)
    requires F.Valid() && IsMatrix(F, M, n, n) && IsVec(F, x, n) && i <= n && Triangular(F, M, n, n)
    requires forall r | 0 <= r < n :: Dot(F, M[r], x) == F.zero
    ensures forall c | i <= c < n :: x[c] == F.zero
    decreases n - i
  {
    if i < n {
      TriangularIsNonsingular(F, M, n, x, i + 1);
      forall c | 0 <= c < i
        ensures M[i][c] == F.zero
      {
        assert M[c][c] == F.one;
      }
      DotSingle(F, M[i], x, n, i);
      F.MulOne(x[i]);
    }
  }

  lemma TriangularMeansNonsingular<E(!new)>(F: Field<E>, A: seq<seq<E>>, M: seq<seq<E>>, I: seq<seq<E>>, n: nat)
    requires F.Valid() && SameSystem(F, A, M, I, n) && Triangular(F, M, n, n)
    ensures Nonsingular(F, A, n)
  {
    hide Triangular, MatVec;
    ZeroIsVec(F, n);
    forall x | IsVec(F, x, n) && MatVec(F, A, x) == ZeroVec(F, n)
      ensures x == ZeroVec(F, n)
    {
      assert SameAt(F, A, M, I, n, x, ZeroVec(F, n));
      MatVecZero(F, I, n, n);
      TriangularKernel(F, M, n, x);
    }
  }

  lemma ZeroIsVec<E(!new)>(F: Field<E>, n: nat)
    requires F.Valid()
    ensures IsVec(F, ZeroVec(F, n), n)
  {
  }

  lemma TriangularKernel<E(!new)>(F: Field<E>, M: seq<seq<E>>, n: nat, x: seq<E>)
    requires F.Valid() && IsMatrix(F, M, n, n) && IsVec(F, x, n) && Triangular(F, M, n, n)
    requires MatVec(F, M, x) == ZeroVec(F, n)
    ensures x == ZeroVec(F, n)
  {
    var u := MatVec(F, M, x);
    forall r | 0 <= r < n
      ensures Dot(F, M[r], x) == F.zero
    {
      assert u[r] == ZeroVec(F, n)[r];
    }
    TriangularIsNonsingular(F, M, n, x, 0);
  }

  // ---- One column at a time.

  // The pivot of column i is one, and the rows below it are cleared up to row j.
  ghost predicate Pivoted<E(!new)>(F: Field<E>, M: seq<seq<E>>, n: nat, i: nat, j: nat) {
    && IsMatrix(F, M, n, n) && i < j <= n && Triangular(F, M, n, i) && M[i][i] == F.one
    && forall r | i < r < j :: M[r][i] == F.zero
  }

  lemma PivotStart<E(!new)>(F: Field<E>, M: seq<seq<E>>, n: nat, i: nat)
    requires IsMatrix(F, M, n, n) && i < n && Triangular(F, M, n, i) && M[i][i] == F.one
    ensures Pivoted(F, M, n, i, i + 1)
  {
  }

  lemma RowBelowPivot<E(!new)>(F: Field<E>, M: seq<seq<E>>, n: nat, j: nat, i: nat)
    requires F.Valid() && IsMatrix(F, M, n, n) && i < j < n && Triangular(F, M, n, i) && M[i][i] == F.one
    ensures IsMatrix(F, AddRow(F, M, j, M[j][i], i), n, n)
    ensures Triangular(F, AddRow(F, M, j, M[j][i], i), n, i)
    ensures AddRow(F, M, j, M[j][i], i)[j][i] == F.zero
  {
    var t := M[j][i];
    RowOpsKeepShape(F, M, n, j, t, i);
    F.MulOne(t);
    F.AddZero(t);
    F.MulZero(t);
    F.AddZero(F.zero);
  }

  lemma PivotNext<E(!new)>(F: Field<E>, M: seq<seq<E>>, n: nat, i: nat, j: nat)
    requires F.Valid() && Pivoted(F, M, n, i, j) && j < n
    ensures |M| == n && |M[j]| == |M[i]| == n && F.elem(M[j][i])
    ensures M[j][i] == F.zero ==> Pivoted(F, M, n, i, j + 1)
    ensures Pivoted(F, AddRow(F, M, j, M[j][i], i), n, i, j + 1)
  {
    hide AddScaled;
    assert IsVec(F, M[j], n) && IsVec(F, M[i], n);
    RowBelowPivot(F, M, n, j, i);
  }

  lemma PivotEnd<E(!new)>(F: Field<E>, M: seq<seq<E>>, n: nat, i: nat)
    requires Pivoted(F, M, n, i, n)
    ensures IsMatrix(F, M, n, n) && Triangular(F, M, n, i + 1)
  {
  }

  // Column i is cleared above the diagonal up to row j.
  ghost predicate ClearedTo<E(!new)>(F: Field<E>, M: seq<seq<E>>, n: nat, i: nat, j: nat) {
    IsMatrix(F, M, n, n) && j <= i < n && Cleared(F, M, n, i + 1) && forall r | 0 <= r < j :: M[r][i] == F.zero
  }

  lemma ClearedStart<E(!new)>(F: Field<E>, M: seq<seq<E>>, n: nat, i: nat)
    requires IsMatrix(F, M, n, n) && i < n && Cleared(F, M, n, i + 1)
    ensures ClearedTo(F, M, n, i, 0)
  {
  }

  lemma ClearedNext<E(!new)>(F: Field<E>, M: seq<seq<E>>, n: nat, i: nat, j: nat)
    requires F.Valid() && ClearedTo(F, M, n, i, j) && j < i
    ensures |M| == n && |M[j]| == |M[i]| == n && F.elem(M[j][i])
    ensures M[j][i] == F.zero ==> ClearedTo(F, M, n, i, j + 1)
    ensures AddRow(F, M, j, M[j][i], i) == M[j := M[j][i := F.zero]]
    ensures ClearedTo(F, AddRow(F, M, j, M[j][i], i), n, i, j + 1)
  {
    var t := M[j][i];
    assert IsVec(F, M[j], n) && IsVec(F, M[i], n);
    RowOpsKeepShape(F, M, n, j, t, i);
    AddUnitRow(F, M, n, j, i);
  }

  lemma ClearedEnd<E(!new)>(F: Field<E>, M: seq<seq<E>>, n: nat, i: nat)
    requires ClearedTo(F, M, n, i, i)
    ensures IsMatrix(F, M, n, n) && Cleared(F, M, n, i)
  {
  }
}

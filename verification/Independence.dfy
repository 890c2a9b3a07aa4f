/** Matrices any n rows of which determine a vector of length n, and the operations that keep this. */
module Independence {
  import opened Fields
  import opened LinearAlgebra
  import opened Erasures
  import opened RowReduction
  import opened MatrixEncoding
  import opened MatrixDecoding

  ghost predicate Chosen(ids: seq<nat>, n: nat, rows: nat) {
    |ids| == n && NoRepeats(ids) && forall i | 0 <= i < n :: ids[i] < rows
  }

  // The chosen rows send x to zero.
  ghost predicate Kills<E(!new)>(F: Field<E>, M: seq<seq<E>>, n: nat, ids: seq<nat>, x: seq<E>)
    requires IsMatrix(F, M, |M|, n) && Chosen(ids, n, |M|) && IsVec(F, x, n)
  {
    forall i | 0 <= i < n :: Dot(F, M[ids[i]], x) == F.zero
  }

  ghost predicate Independent<E(!new)>(F: Field<E>, M: seq<seq<E>>, n: nat, ids: seq<nat>)
    requires IsMatrix(F, M, |M|, n) && Chosen(ids, n, |M|)
  {
    forall x | IsVec(F, x, n) && Kills(F, M, n, ids, x) :: x == ZeroVec(F, n)
  }

  /** Every choice of n rows is independent. */
  ghost predicate AnyRows<E(!new)>(F: Field<E>, M: seq<seq<E>>, n: nat) {
    IsMatrix(F, M, |M|, n) && forall ids | Chosen(ids, n, |M|) :: Independent(F, M, n, ids)
  }

  // ---- Row operations.

  function Swapped(i: nat, j: nat, r: nat): nat {
    if r == i then j else if r == j then i else r
  }

  lemma SwapKeepsAnyRows<E(!new)>(F: Field<E>, M: seq<seq<E>>, n: nat, i: nat, j: nat)
    requires AnyRows(F, M, n) && i < |M| && j < |M|
    ensures AnyRows(F, SwapRows(M, i, j), n)
  {
    var M' := SwapRows(M, i, j);
    forall ids | Chosen(ids, n, |M'|)
      ensures Independent(F, M', n, ids)
    {
      var ids' := seq(n, t requires 0 <= t < n => Swapped(i, j, ids[t]));
      assert Chosen(ids', n, |M|);
      forall x | IsVec(F, x, n) && Kills(F, M', n, ids, x)
        ensures x == ZeroVec(F, n)
      {
        forall t | 0 <= t < n
          ensures Dot(F, M[ids'[t]], x) == F.zero
        {
          assert M'[ids[t]] == M[ids'[t]];
        }
        assert Kills(F, M, n, ids', x);
      }
    }
  }

  lemma ScaleRowKeepsAnyRows<E(!new)>(F: Field<E>, M: seq<seq<E>>, n: nat, i: nat, t: E)
    requires F.Valid() && AnyRows(F, M, n) && i < |M| && F.elem(t) && t != F.zero
    ensures AnyRows(F, ScaleRow(F, M, i, t), n)
  {
    var M' := ScaleRow(F, M, i, t);
    assert IsVec(F, M[i], n);
    forall c | 0 <= c < n
      ensures F.elem(M'[i][c])
    {
      F.Closed(t, M[i][c]);
    }
    forall ids | Chosen(ids, n, |M'|)
      ensures Independent(F, M', n, ids)
    {
      forall x | IsVec(F, x, n) && Kills(F, M', n, ids, x)
        ensures x == ZeroVec(F, n)
      {
        forall u | 0 <= u < n
          ensures Dot(F, M[ids[u]], x) == F.zero
        {
          assert Dot(F, M'[ids[u]], x) == F.zero;
          if ids[u] == i {
            DotScaled(F, t, M[i], x, n);
            DotElem(F, M[i], x, n);
            F.MulNonzero(t, Dot(F, M[i], x));
          }
        }
        assert Kills(F, M, n, ids, x);
      }
    }
  }

  // ---- Column operations.

  function ScaleAt<E(!new)>(F: Field<E>, row: seq<E>, j: nat, t: E): seq<E>
    requires j < |row|
  {
    row[j := F.mul(t, row[j])]
  }

  function ScaleColumn<E(!new)>(F: Field<E>, M: seq<seq<E>>, n: nat, j: nat, t: E): (M': seq<seq<E>>)
    requires j < n && forall r | 0 <= r < |M| :: |M[r]| == n
    ensures |M'| == |M|
  {
    seq(|M|, r requires 0 <= r < |M| => ScaleAt(F, M[r], j, t))
  }

  function AddAt<E(!new)>(F: Field<E>, row: seq<E>, j: nat, t: E, i: nat): seq<E>
    requires i < |row| && j < |row|
  {
    row[j := F.add(row[j], F.mul(t, row[i]))]
  }

  // Column j plus t times column i.
  function AddColumn<E(!new)>(F: Field<E>, M: seq<seq<E>>, n: nat, j: nat, t: E, i: nat): (M': seq<seq<E>>)
    requires i < n && j < n && forall r | 0 <= r < |M| :: |M[r]| == n
    ensures |M'| == |M|
  {
    seq(|M|, r requires 0 <= r < |M| => AddAt(F, M[r], j, t, i))
  }

  lemma {:induction false} DotScaleAt<E(!new)>(F: Field<E>, row: seq<E>, x: seq<E>, j: nat, t: E, n: nat)
    requires F.Valid() && IsVec(F, row, |row|) && IsVec(F, x, |row|) && j < |row| && n <= |row| && F.elem(t)
    ensures DotTo(F, ScaleAt(F, row, j, t), x, n) == DotTo(F, row, ScaleAt(F, x, j, t), n)
  {
    if n > 0 {
      DotScaleAt(F, row, x, j, t, n - 1);
      var a, b := row[n - 1], x[n - 1];
      assert F.MulLaws(t, a, b) && F.MulLaws(a, t, b);
    }
  }

  // x with t * x[j] added at i.
  lemma {:induction false} DotAddAt<E(!new)>(F: Field<E>, row: seq<E>, x: seq<E>, j: nat, t: E, i: nat, n: nat)
    requires F.Valid() && IsVec(F, row, |row|) && IsVec(F, x, |row|) && i < |row| && j < |row| && i != j && F.elem(t)
    ensures Dot(F, AddAt(F, row, j, t, i), x) == Dot(F, row, AddAt(F, x, i, t, j))
  {
    // Both are Dot(row, x) plus t * row[i] * x[j].
    var e := UnitVec(F, |row|, j);
    var f := UnitVec(F, |row|, i);
    assert IsVec(F, e, |row|) && IsVec(F, f, |row|);
    var p, q := F.mul(t, row[i]), F.mul(t, x[j]);
    F.Closed(t, row[i]);
    F.Closed(t, x[j]);
    AddAtIsSum(F, row, j, p);
    AddAtIsSum(F, x, i, q);
    DotAddScaled(F, row, p, e, x, |row|);
    DotUnit(F, x, j);
    var x' := AddScaled(F, x, q, f);
    AddScaledElems(F, x, q, f);
    DotComm(F, row, x', |row|);
    DotAddScaled(F, x, q, f, row, |row|);
    DotComm(F, x, row, |row|);
    DotUnit(F, row, i);
    assert F.MulLaws(t, row[i], x[j]) && F.MulLaws(row[i], x[j], t) && F.MulLaws(t, x[j], row[i]);
  }

  lemma AddScaledElems<E(!new)>(F: Field<E>, a: seq<E>, t: E, b: seq<E>)
    requires F.Valid() && IsVec(F, a, |a|) && IsVec(F, b, |a|) && F.elem(t)
    ensures IsVec(F, AddScaled(F, a, t, b), |a|)
  {
    forall i | 0 <= i < |a|
      ensures F.elem(AddScaled(F, a, t, b)[i])
    {
      F.Closed(t, b[i]);
      F.Closed(a[i], F.mul(t, b[i]));
    }
  }

  lemma AddAtIsSum<E(!new)>(F: Field<E>, a: seq<E>, j: nat, p: E)
    requires F.Valid() && IsVec(F, a, |a|) && j < |a| && F.elem(p)
    ensures a[j := F.add(a[j], p)] == AddScaled(F, a, p, UnitVec(F, |a|, j))
  {
    forall c | 0 <= c < |a|
      ensures a[j := F.add(a[j], p)][c] == AddScaled(F, a, p, UnitVec(F, |a|, j))[c]
    {
      F.MulOne(p);
      F.MulZero(p);
      F.AddZero(a[c]);
    }
  }

  lemma ScaleAtZero<E(!new)>(F: Field<E>, x: seq<E>, j: nat, t: E)
    requires F.Valid() && IsVec(F, x, |x|) && j < |x| && F.elem(t)
    ensures IsVec(F, ScaleAt(F, x, j, t), |x|)
    ensures t != F.zero && ScaleAt(F, x, j, t) == ZeroVec(F, |x|) ==> x == ZeroVec(F, |x|)
  {
    F.Closed(t, x[j]);
    F.MulNonzero(t, x[j]);
    if ScaleAt(F, x, j, t) == ZeroVec(F, |x|) && t != F.zero {
      forall c | 0 <= c < |x|
        ensures x[c] == F.zero
      {
        assert ScaleAt(F, x, j, t)[c] == F.zero;
      }
    }
  }

  lemma ScaleColumnKeepsAnyRows<E(!new)>(F: Field<E>, M: seq<seq<E>>, n: nat, j: nat, t: E)
    requires F.Valid() && AnyRows(F, M, n) && j < n && F.elem(t) && t != F.zero
    ensures AnyRows(F, ScaleColumn(F, M, n, j, t), n)
  {
    hide ScaleAt;
    var M' := ScaleColumn(F, M, n, j, t);
    forall r | 0 <= r < |M|
      ensures IsVec(F, M'[r], n)
    {
      assert IsVec(F, M[r], n);
      ScaleAtZero(F, M[r], j, t);
    }
    forall ids | Chosen(ids, n, |M'|)
      ensures Independent(F, M', n, ids)
    {
      forall x | IsVec(F, x, n) && Kills(F, M', n, ids, x)
        ensures x == ZeroVec(F, n)
      {
        ScaleAtZero(F, x, j, t);
        var x' := ScaleAt(F, x, j, t);
        forall u | 0 <= u < n
          ensures Dot(F, M[ids[u]], x') == F.zero
        {
          assert IsVec(F, M[ids[u]], n);
          DotScaleAt(F, M[ids[u]], x, j, t, n);
          assert Dot(F, M'[ids[u]], x) == F.zero;
        }
        assert Kills(F, M, n, ids, x');
      }
    }
  }

  lemma AddAtZero<E(!new)>(F: Field<E>, x: seq<E>, i: nat, t: E, j: nat)
    requires F.Valid() && IsVec(F, x, |x|) && i < |x| && j < |x| && i != j && F.elem(t)
    ensures IsVec(F, AddAt(F, x, i, t, j), |x|)
    ensures AddAt(F, x, i, t, j) == ZeroVec(F, |x|) ==> x == ZeroVec(F, |x|)
  {
    F.Closed(t, x[j]);
    F.Closed(x[i], F.mul(t, x[j]));
    if AddAt(F, x, i, t, j) == ZeroVec(F, |x|) {
      forall c | 0 <= c < |x| && c != i
        ensures x[c] == F.zero
      {
        assert AddAt(F, x, i, t, j)[c] == F.zero;
      }
      assert AddAt(F, x, i, t, j)[i] == F.zero;
      F.MulZero(t);
      F.AddZero(x[i]);
    }
  }

  lemma AddColumnKeepsAnyRows<E(!new)>(F: Field<E>, M: seq<seq<E>>, n: nat, j: nat, t: E, i: nat)
    requires F.Valid() && AnyRows(F, M, n) && i < n && j < n && i != j && F.elem(t)
    ensures AnyRows(F, AddColumn(F, M, n, j, t, i), n)
  {
    hide AddAt;
    var M' := AddColumn(F, M, n, j, t, i);
    forall r | 0 <= r < |M|
      ensures IsVec(F, M'[r], n)
    {
      assert IsVec(F, M[r], n);
      AddAtZero(F, M[r], j, t, i);
    }
    forall ids | Chosen(ids, n, |M'|)
      ensures Independent(F, M', n, ids)
    {
      forall x | IsVec(F, x, n) && Kills(F, M', n, ids, x)
        ensures x == ZeroVec(F, n)
      {
        AddAtZero(F, x, i, t, j);
        var x' := AddAt(F, x, i, t, j);
        forall u | 0 <= u < n
          ensures Dot(F, M[ids[u]], x') == F.zero
        {
          assert IsVec(F, M[ids[u]], n);
          DotAddAt(F, M[ids[u]], x, j, t, i, n);
          assert Dot(F, M'[ids[u]], x) == F.zero;
        }
        assert Kills(F, M, n, ids, x');
      }
    }
  }

  // ---- What it gives.

  /** A coding matrix below the identity. */
  ghost function Systematic<E(!new)>(F: Field<E>, k: nat, C: seq<seq<E>>): (M: seq<seq<E>>)
    ensures |M| == k + |C|
  {
    seq(k + |C|, d requires 0 <= d < k + |C| => DeviceRow(F, k, C, d))
  }

  lemma SystematicIsMatrix<E(!new)>(F: Field<E>, k: nat, C: seq<seq<E>>)
    requires F.Valid() && IsMatrix(F, C, |C|, k)
    ensures IsMatrix(F, Systematic(F, k, C), k + |C|, k)
  {
    forall d | 0 <= d < k + |C|
      ensures IsVec(F, Systematic(F, k, C)[d], k)
    {
      if d >= k {
        assert IsVec(F, C[d - k], k);
      }
    }
  }

  /** Any k surviving devices give a decoding matrix. */
  lemma AnyRowsDecode<E(!new)>(F: Field<E>, k: nat, C: seq<seq<E>>, ids: seq<nat>)
    requires F.Valid() && IsMatrix(F, C, |C|, k) && AnyRows(F, Systematic(F, k, C), k) && Chosen(ids, k, k + |C|)
    ensures IsMatrix(F, DeviceRows(F, k, C, ids), k, k) && Nonsingular(F, DeviceRows(F, k, C, ids), k)
  {
    var M, A := Systematic(F, k, C), DeviceRows(F, k, C, ids);
    SurvivorRowsAreMatrix(F, k, C, ids);
    assert Independent(F, M, k, ids);
    forall x | IsVec(F, x, k) && MatVec(F, A, x) == ZeroVec(F, k)
      ensures x == ZeroVec(F, k)
    {
      forall i | 0 <= i < k
        ensures Dot(F, M[ids[i]], x) == F.zero
      {
        assert MatVec(F, A, x)[i] == ZeroVec(F, k)[i];
      }
      assert Kills(F, M, k, ids, x);
    }
  }

  // Rows 0 to n - 1 with row d replaced by row r.
  function Replacing(n: nat, d: nat, r: nat): (ids: seq<nat>)
    ensures |ids| == n && forall i | 0 <= i < n :: ids[i] == if i == d then r else i
  {
    seq(n, i requires 0 <= i < n => if i == d then r else i)
  }

  // When the other rows are zero in column d, the row that replaces row d is not.
  lemma EntryNonzero<E(!new)>(F: Field<E>, M: seq<seq<E>>, n: nat, d: nat, r: nat)
    requires F.Valid() && AnyRows(F, M, n) && d < n <= |M| && (r == d || n <= r < |M|)
    requires forall i | 0 <= i < n && i != d :: |M[i]| == n && M[i][d] == F.zero
    ensures |M[r]| == n && M[r][d] != F.zero
  {
    var ids := Replacing(n, d, r);
    assert Chosen(ids, n, |M|);
    assert IsVec(F, M[r], n);
    var x := UnitVec(F, n, d);
    assert Independent(F, M, n, ids);
    assert IsVec(F, x, n) && x[d] == F.one && ZeroVec(F, n)[d] == F.zero;
    if M[r][d] == F.zero {
      forall i | 0 <= i < n
        ensures Dot(F, M[ids[i]], x) == F.zero
      {
        assert IsVec(F, M[ids[i]], n);
        DotUnit(F, M[ids[i]], d);
      }
    }
  }

  /** No entry of the coding matrix is zero. */
  lemma CodingNonzero<E(!new)>(F: Field<E>, k: nat, C: seq<seq<E>>, i: nat, j: nat)
    requires F.Valid() && IsMatrix(F, C, |C|, k) && AnyRows(F, Systematic(F, k, C), k) && i < |C| && j < k
    ensures |C[i]| == k && C[i][j] != F.zero
  {
    EntryNonzero(F, Systematic(F, k, C), k, j, k + i);
  }

  /** With such a matrix jerasure_matrix_decode never fails for want of a decoding matrix, and writes every
      lost coding device. */
  lemma AnyRowsAlwaysDecode<E(!new)>(F: Field<E>, k: nat, C: seq<seq<E>>, e: seq<bool>)
    requires F.Valid() && IsMatrix(F, C, |C|, k) && AnyRows(F, Systematic(F, k, C), k) && 0 < k
    requires |e| == k + |C| && |Where(e, 0, |e|, false)| >= k
    ensures MatrixDecodable(F, k, C, e) && WrittenRows(F, k, C, e)
  {
    WhereOrdered(e, 0, |e|, false);
    SurvivorRowsAreMatrix(F, k, C, FirstSurvivors(e, k));
    AnyRowsDecode(F, k, C, FirstSurvivors(e, k));
    forall i | 0 <= i < |C|
      ensures !ZeroRow(F, C[i], k)
    {
      CodingNonzero(F, k, C, i, 0);
    }
  }
}

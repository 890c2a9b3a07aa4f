/** The distribution matrix (reed_sol.c): elementary operations bring the extended Vandermonde matrix to
    systematic form without losing the independence of any cols rows. */
module Distribution {
  import opened Fields
  import opened LinearAlgebra
  import opened RowReduction
  import opened Elimination
  import opened LogTables
  import opened MatrixDecoding
  import opened Independence
  import opened Vandermonde
  import opened Interpolation

  // ---- Operations on columns, in place.

  method ScaleColumnInPlace<E(!new)>(F: Field<E>, dist: array2<E>, j: nat, t: E)
    requires j < dist.Length1
    modifies dist
    ensures Rows(dist) == ScaleColumn(F, old(Rows(dist)), dist.Length1, j, t)
  {
    for r := 0 to dist.Length0
      invariant forall x, c | 0 <= x < dist.Length0 && 0 <= c < dist.Length1 ::
        dist[x, c] == if x < r && c == j then F.mul(t, old(dist[x, c])) else old(dist[x, c])
    {
      dist[r, j] := F.mul(t, dist[r, j]);
    }
    assert forall r | 0 <= r < dist.Length0 :: Rows(dist)[r] == ScaleColumn(F, old(Rows(dist)), dist.Length1, j, t)[r];
  }

  method AddColumnInPlace<E(!new)>(F: Field<E>, dist: array2<E>, j: nat, t: E, i: nat)
    requires i < dist.Length1 && j < dist.Length1 && i != j
    modifies dist
    ensures Rows(dist) == AddColumn(F, old(Rows(dist)), dist.Length1, j, t, i)
  {
    for k := 0 to dist.Length0
      invariant forall x, c | 0 <= x < dist.Length0 && 0 <= c < dist.Length1 ::
        dist[x, c] == if x < k && c == j then F.add(old(dist[x, c]), F.mul(t, old(dist[x, i]))) else old(dist[x, c])
    {
      dist[k, j] := F.add(dist[k, j], F.mul(t, dist[k, i]));
    }
    assert forall r | 0 <= r < dist.Length0 :: Rows(dist)[r] == AddColumn(F, old(Rows(dist)), dist.Length1, j, t, i)[r];
  }

  // ---- The first i rows are unit rows.

  ghost predicate UnitTop<E(!new)>(F: Field<E>, M: seq<seq<E>>, n: nat, i: nat) {
    i <= n < |M| && AnyRows(F, M, n) && forall r | 0 <= r < i :: M[r] == UnitVec(F, n, r)
  }

  lemma RowIsVec<E(!new)>(F: Field<E>, M: seq<seq<E>>, n: nat, r: nat)
    requires AnyRows(F, M, n) && r < |M|
    ensures IsVec(F, M[r], n)
  {
  }

  // A pivot is always found.
  lemma PivotExists<E(!new)>(F: Field<E>, M: seq<seq<E>>, n: nat, i: nat)
    requires F.Valid() && UnitTop(F, M, n, i) && i < n
    ensures exists r :: i <= r < |M| && |M[r]| == n && M[r][i] != F.zero
  {
    RowIsVec(F, M, n, i);
    if forall r | i <= r < n :: |M[r]| == n && M[r][i] == F.zero {
      EntryNonzero(F, M, n, i, i);
    } else {
      var r :| i <= r < n && !(|M[r]| == n && M[r][i] == F.zero);
      RowIsVec(F, M, n, r);
    }
  }

  lemma SwapKeepsTop<E(!new)>(F: Field<E>, M: seq<seq<E>>, n: nat, i: nat, j: nat)
    requires F.Valid() && UnitTop(F, M, n, i) && i <= j < |M|
    ensures UnitTop(F, SwapRows(M, i, j), n, i)
  {
    SwapKeepsAnyRows(F, M, n, i, j);
  }

  lemma ScaleKeepsTop<E(!new)>(F: Field<E>, M: seq<seq<E>>, n: nat, i: nat, t: E)
    requires F.Valid() && UnitTop(F, M, n, i) && i < n && F.elem(t) && t != F.zero
    ensures UnitTop(F, ScaleColumn(F, M, n, i, t), n, i)
    ensures |M[i]| == n && ScaleColumn(F, M, n, i, t)[i] == M[i][i := F.mul(t, M[i][i])]
  {
    ScaleColumnKeepsAnyRows(F, M, n, i, t);
    RowIsVec(F, M, n, i);
    F.MulZero(t);
    forall r | 0 <= r < i
      ensures ScaleColumn(F, M, n, i, t)[r] == UnitVec(F, n, r)
    {
      assert M[r][i] == F.zero;
    }
  }

  // Clearing position (i, j) with column i, whose entry in row i is one.
  lemma ClearKeepsTop<E(!new)>(F: Field<E>, M: seq<seq<E>>, n: nat, i: nat, j: nat)
    requires F.Valid() && UnitTop(F, M, n, i) && i < n && j < n && i != j && |M[i]| == n && M[i][i] == F.one
    ensures UnitTop(F, AddColumn(F, M, n, j, M[i][j], i), n, i)
    ensures AddColumn(F, M, n, j, M[i][j], i)[i] == M[i][j := F.zero]
  {
    RowIsVec(F, M, n, i);
    var t := M[i][j];
    AddColumnKeepsAnyRows(F, M, n, j, t, i);
    F.MulZero(t);
    F.MulOne(t);
    F.AddZero(t);
    forall r | 0 <= r < i
      ensures AddColumn(F, M, n, j, t, i)[r] == UnitVec(F, n, r)
    {
      assert M[r][i] == F.zero && F.elem(M[r][j]);
      F.AddZero(M[r][j]);
    }
  }

  lemma NextTop<E(!new)>(F: Field<E>, M: seq<seq<E>>, n: nat, i: nat)
    requires F.Valid() && UnitTop(F, M, n, i) && i < n && |M[i]| == n && M[i][i] == F.one
    requires forall c | 0 <= c < n && c != i :: M[i][c] == F.zero
    ensures UnitTop(F, M, n, i + 1)
  {
    assert M[i] == UnitVec(F, n, i);
  }

  // The first row from i on with a nonzero entry in column i.
  method FindPivotRow<E(==,!new)>(F: Field<E>, dist: array2<E>, i: nat) returns (j: nat)
    requires F.Valid() && UnitTop(F, Rows(dist), dist.Length1, i) && i < dist.Length1
    ensures i <= j < dist.Length0 && dist[j, i] != F.zero && forall r | i <= r < j :: dist[r, i] == F.zero
  {
    hide UnitTop, AnyRows;
    TopShape(F, Rows(dist), dist.Length1, i);
    PivotExists(F, Rows(dist), dist.Length1, i);
    ghost var pivot :| i <= pivot < dist.Length0 && dist[pivot, i] != F.zero;
    j := i;
    while dist[j, i] == F.zero
      invariant i <= j <= pivot && forall r | i <= r < j :: dist[r, i] == F.zero
      decreases pivot - j
    {
      j := j + 1;
    }
  }

  lemma TopShape<E(!new)>(F: Field<E>, M: seq<seq<E>>, n: nat, i: nat)
    requires UnitTop(F, M, n, i)
    ensures i <= n < |M| && AnyRows(F, M, n) && forall r | 0 <= r < |M| :: IsVec(F, M[r], n)
  {
  }

  function PivotScaled<E(==,!new)>(F: Field<E>, M: seq<seq<E>>, n: nat, i: nat): seq<seq<E>>
    requires i < n && i < |M| && forall r | 0 <= r < |M| :: |M[r]| == n
  {
    if M[i][i] == F.one then M else ScaleColumn(F, M, n, i, F.inv(M[i][i]))
  }

  // Make entry (i, i) one; rows change places only when it was zero.
  method PlacePivot<E(==,!new)>(F: Field<E>, dist: array2<E>, i: nat)
    requires F.Valid() && UnitTop(F, Rows(dist), dist.Length1, i) && i < dist.Length1
    modifies dist
    ensures UnitTop(F, Rows(dist), dist.Length1, i) && i < dist.Length0 && dist[i, i] == F.one
    ensures old(dist[i, i]) != F.zero ==> Rows(dist) == PivotScaled(F, old(Rows(dist)), dist.Length1, i)
  {
    hide UnitTop, AnyRows;
    TopShape(F, Rows(dist), dist.Length1, i);
    var j := FindPivotRow(F, dist, i);
    if j != i {
      SwapKeepsTop(F, Rows(dist), dist.Length1, i, j);
      SwapInPlace(dist, i, j);
    }
    assert dist[i, i] != F.zero;
    if dist[i, i] != F.one {
      ghost var M := Rows(dist);
      TopShape(F, M, dist.Length1, i);
      assert IsVec(F, M[i], dist.Length1);
      F.InvCancel(dist[i, i], F.one);
      var tmp := F.inv(dist[i, i]);
      ScaleKeepsTop(F, M, dist.Length1, i, tmp);
      ScaleColumnInPlace(F, dist, i, tmp);
      assert Rows(dist)[i][i] == F.mul(tmp, M[i][i]);
    }
  }

  // The columns of M are combinations of those of V, with none from column i on but its own.
  ghost predicate Follows<E(!new)>(F: Field<E>, V: seq<seq<E>>, M: seq<seq<E>>, C: seq<seq<E>>, n: nat, i: nat) {
    Combines(F, V, M, C, n) && Fresh(F, C, n, i)
  }

  lemma FollowsAdd<E(!new)>(F: Field<E>, V: seq<seq<E>>, M: seq<seq<E>>, C: seq<seq<E>>, n: nat, j: nat, t: E, i: nat)
    returns (C': seq<seq<E>>)
    requires F.Valid() && Follows(F, V, M, C, n, i + 1) && i < n && j < n && i != j && i < |M| && |M[i]| == n
    requires t == M[i][j] && forall r | 0 <= r < |M| :: |M[r]| == n
    ensures Follows(F, V, AddColumn(F, M, n, j, t, i), C', n, i + 1)
  {
    assert IsVec(F, M[i], n);
    CombinesAdd(F, V, M, C, n, j, t, i);
    C' := C[j := AddScaled(F, C[j], t, C[i])];
  }

  lemma FollowsPivot<E(!new)>(F: Field<E>, V: seq<seq<E>>, M: seq<seq<E>>, C: seq<seq<E>>, n: nat, i: nat)
    returns (C': seq<seq<E>>)
    requires F.Valid() && Follows(F, V, M, C, n, i) && i < n && i < |M| && |M[i]| == n && M[i][i] != F.zero
    requires forall r | 0 <= r < |M| :: |M[r]| == n
    ensures Follows(F, V, PivotScaled(F, M, n, i), C', n, i + 1)
  {
    assert IsVec(F, M[i], n);
    if M[i][i] == F.one {
      C' := C;
    } else {
      F.InvCancel(M[i][i], F.one);
      CombinesScale(F, V, M, C, n, i, F.inv(M[i][i]));
      C' := C[i := Scaled(F, F.inv(M[i][i]), C[i])];
    }
  }

  // Make the rest of row i zero.
  method ClearRow<E(==,!new)>(F: Field<E>, dist: array2<E>, i: nat, ghost V: seq<seq<E>>, ghost C: seq<seq<E>>)
    returns (ghost C': seq<seq<E>>)
    requires F.Valid() && UnitTop(F, Rows(dist), dist.Length1, i) && i < dist.Length1 && i < dist.Length0
    requires dist[i, i] == F.one
    requires Follows(F, V, Rows(dist), C, dist.Length1, i + 1)
    modifies dist
    ensures UnitTop(F, Rows(dist), dist.Length1, i + 1)
    ensures Follows(F, V, Rows(dist), C', dist.Length1, i + 1)
  {
    hide UnitTop, Follows;
    var cols := dist.Length1;
    C' := C;
    for j := 0 to cols
      invariant UnitTop(F, Rows(dist), cols, i) && dist[i, i] == F.one
      invariant Follows(F, V, Rows(dist), C', cols, i + 1)
      invariant forall c | 0 <= c < j && c != i :: dist[i, c] == F.zero
    {
      var tmp := dist[i, j];
      if j != i && tmp != F.zero {
        ghost var M := Rows(dist);
        ClearKeepsTop(F, M, cols, i, j);
        C' := FollowsAdd(F, V, M, C', cols, j, tmp, i);
        AddColumnInPlace(F, dist, j, tmp, i);
        assert Rows(dist)[i] == M[i][j := F.zero];
        assert forall c | 0 <= c < cols :: dist[i, c] == Rows(dist)[i][c];
      }
    }
    NextTop(F, Rows(dist), cols, i);
  }

  // ---- Row cols of the result, and column 0 below it.

  // Scaling column j below the identity, as a scaling of the whole column and of row j.
  function ScaleBelow<E(!new)>(F: Field<E>, M: seq<seq<E>>, n: nat, j: nat, t: E): (M': seq<seq<E>>)
    requires j < n && forall r | 0 <= r < |M| :: |M[r]| == n
    ensures |M'| == |M|
  {
    seq(|M|, r requires 0 <= r < |M| => if r < n then M[r] else ScaleAt(F, M[r], j, t))
  }

  lemma ScaleBelowKeepsTop<E(!new)>(F: Field<E>, M: seq<seq<E>>, n: nat, j: nat, t: E)
    requires F.Valid() && UnitTop(F, M, n, n) && j < n && F.elem(t) && t != F.zero
    ensures UnitTop(F, ScaleBelow(F, M, n, j, t), n, n)
  {
    var M1 := ScaleColumn(F, M, n, j, t);
    ScaleColumnKeepsAnyRows(F, M, n, j, t);
    F.InvCancel(t, F.one);
    ScaleRowKeepsAnyRows(F, M1, n, j, F.inv(t));
    var M2 := ScaleRow(F, M1, j, F.inv(t));
    F.MulZero(t);
    F.MulZero(F.inv(t));
    F.MulOne(t);
    forall r | 0 <= r < |M|
      ensures M2[r] == ScaleBelow(F, M, n, j, t)[r]
    {
      if r < n {
        assert M[r] == UnitVec(F, n, r);
      }
    }
    assert M2 == ScaleBelow(F, M, n, j, t);
  }

  method ScaleBelowInPlace<E(!new)>(F: Field<E>, dist: array2<E>, j: nat, t: E)
    requires j < dist.Length1 <= dist.Length0
    modifies dist
    ensures Rows(dist) == ScaleBelow(F, old(Rows(dist)), dist.Length1, j, t)
  {
    var cols := dist.Length1;
    for i := cols to dist.Length0
      invariant forall x, c | 0 <= x < dist.Length0 && 0 <= c < cols ::
        dist[x, c] == if cols <= x < i && c == j then F.mul(t, old(dist[x, c])) else old(dist[x, c])
    {
      dist[i, j] := F.mul(t, dist[i, j]);
    }
    assert forall r | 0 <= r < dist.Length0 :: Rows(dist)[r] == ScaleBelow(F, old(Rows(dist)), cols, j, t)[r];
  }

  lemma BelowNonzero<E(!new)>(F: Field<E>, M: seq<seq<E>>, n: nat, r: nat, j: nat)
    requires F.Valid() && UnitTop(F, M, n, n) && n <= r < |M| && j < n
    ensures |M[r]| == n && F.elem(M[r][j]) && M[r][j] != F.zero
  {
    RowIsVec(F, M, n, r);
    EntryNonzero(F, M, n, j, r);
  }

  lemma QuotientTimes<E(!new)>(F: Field<E>, s: E, x: E)
    requires F.Valid() && F.elem(s) && F.elem(x) && s != F.zero
    ensures F.mul(F.mul(F.inv(s), x), s) == x
    ensures F.mul(x, F.one) == x
  {
    F.InvCancel(s, x);
    F.Closed(F.inv(s), x);
    assert F.MulLaws(F.mul(F.inv(s), x), s, s);
    F.MulOne(x);
  }

  // Make row cols all ones.
  method UnitRow<E(==,!new)>(F: Field<E>, dist: array2<E>)
    requires F.Valid() && UnitTop(F, Rows(dist), dist.Length1, dist.Length1)
    modifies dist
    ensures UnitTop(F, Rows(dist), dist.Length1, dist.Length1)
    ensures dist.Length1 < dist.Length0 && AllOnes(F, Rows(dist)[dist.Length1])
    ensures forall r, c | dist.Length1 <= r < dist.Length0 && 0 <= c < dist.Length1 ::
      F.mul(dist[r, c], old(dist[dist.Length1, c])) == old(dist[r, c])
  {
    hide UnitTop, AnyRows;
    var cols := dist.Length1;
    ghost var S := Rows(dist);
    TopShape(F, S, cols, cols);
    for j := 0 to cols
      invariant UnitTop(F, Rows(dist), cols, cols)
      invariant forall c | 0 <= c < j :: Rows(dist)[cols][c] == F.one
      invariant forall r, c | cols <= r < dist.Length0 && 0 <= c < j :: F.mul(dist[r, c], S[cols][c]) == S[r][c]
      invariant forall r, c | cols <= r < dist.Length0 && j <= c < cols :: dist[r, c] == S[r][c]
    {
      ghost var M := Rows(dist);
      BelowNonzero(F, M, cols, cols, j);
      var tmp := dist[cols, j];
      if tmp != F.one {
        F.InvCancel(tmp, F.one);
        tmp := F.inv(tmp);
        ScaleBelowKeepsTop(F, M, cols, j, tmp);
        ScaleBelowInPlace(F, dist, j, tmp);
        assert Rows(dist)[cols] == ScaleAt(F, M[cols], j, tmp);
      }
      forall r | cols <= r < dist.Length0
        ensures F.mul(dist[r, j], S[cols][j]) == S[r][j]
      {
        assert Rows(dist)[r][j] == dist[r, j] && M[r][j] == S[r][j];
        QuotientTimes(F, S[cols][j], S[r][j]);
      }
    }
  }

  lemma ScaleLowRow<E(!new)>(F: Field<E>, M: seq<seq<E>>, n: nat, i: nat, t: E)
    requires F.Valid() && UnitTop(F, M, n, n) && n <= i < |M| && F.elem(t) && t != F.zero
    ensures UnitTop(F, ScaleRow(F, M, i, t), n, n)
  {
    ScaleRowKeepsAnyRows(F, M, n, i, t);
  }

  // Make column 0 of the rows from cols on ones.
  method UnitColumn<E(==,!new)>(F: Field<E>, dist: array2<E>)
    requires F.Valid() && UnitTop(F, Rows(dist), dist.Length1, dist.Length1) && dist.Length1 > 0
    requires dist.Length1 < dist.Length0 && AllOnes(F, Rows(dist)[dist.Length1])
    modifies dist
    ensures UnitTop(F, Rows(dist), dist.Length1, dist.Length1)
    ensures dist.Length1 < dist.Length0 && AllOnes(F, Rows(dist)[dist.Length1])
    ensures forall r | dist.Length1 <= r < dist.Length0 :: dist[r, 0] == F.one
    ensures forall r, c | dist.Length1 <= r < dist.Length0 && 0 <= c < dist.Length1 ::
      F.mul(dist[r, c], old(dist[r, 0])) == old(dist[r, c])
  {
    hide UnitTop, AnyRows;
    var cols, rows := dist.Length1, dist.Length0;
    ghost var S := Rows(dist);
    TopShape(F, S, cols, cols);
    OnesTimes(F, S[cols], cols);
    for i := cols + 1 to rows
      invariant UnitTop(F, Rows(dist), cols, cols) && AllOnes(F, Rows(dist)[cols])
      invariant forall r | cols <= r < i :: Rows(dist)[r][0] == F.one
      invariant forall r, c | cols <= r < i && 0 <= c < cols :: F.mul(dist[r, c], S[r][0]) == S[r][c]
      invariant forall r, c | i <= r < rows && 0 <= c < cols :: dist[r, c] == S[r][c]
    {
      ghost var M := Rows(dist);
      BelowNonzero(F, M, cols, i, 0);
      var tmp := dist[i, 0];
      if tmp != F.one {
        F.InvCancel(tmp, F.one);
        tmp := F.inv(tmp);
        ScaleLowRow(F, M, cols, i, tmp);
        ScaleInPlace(F, dist, i, tmp);
        assert Rows(dist)[i] == Scaled(F, tmp, M[i]);
      }
      forall c | 0 <= c < cols
        ensures F.mul(dist[i, c], S[i][0]) == S[i][c]
      {
        assert Rows(dist)[i][c] == dist[i, c] && M[i][c] == S[i][c];
        QuotientTimes(F, S[i][0], S[i][c]);
      }
    }
  }

  lemma OnesTimes<E(!new)>(F: Field<E>, row: seq<E>, n: nat)
    requires F.Valid() && |row| == n > 0 && AllOnes(F, row)
    ensures row[0] == F.one && forall c | 0 <= c < n :: F.mul(row[c], row[0]) == row[c]
  {
    F.MulOne(F.one);
  }

  /** reed_sol_big_vandermonde_distribution_matrix: unless there are too many rows, the result is the
      identity above rows any cols of which, with those of the identity, are independent. */
  method BigVandermonde<E(==,!new)>(F: Field<E>, points: seq<E>, rows: nat, cols: nat, w: nat)
    returns (dist: array2?<E>)
    requires F.Valid() && Points(F, points) && |points| == Pow2(w) && cols > 0
    requires w >= 30 ==> rows <= Pow2(w)
    ensures dist == null <==> cols >= rows || Pow2(w) < rows
    ensures dist != null ==>
      fresh(dist) && dist.Length0 == rows && dist.Length1 == cols && UnitTop(F, Rows(dist), cols, cols)
    ensures dist != null ==> AllOnes(F, Rows(dist)[cols]) && forall r | cols <= r < rows :: Rows(dist)[r][0] == F.one
    ensures dist != null ==>
      forall r, j | 0 <= r < cols && 0 <= j < cols :: dist[r, j] == if j == r then F.one else F.zero
    ensures dist != null ==> LowEntries(F, points, rows, cols, Rows(dist))
  {
    hide UnitTop, AnyRows, Pow2, VandermondeRows, Points, Follows, LowEntries;
    if cols >= rows {
      return null;
    }
    dist := ExtendedVandermonde(F, points, rows, cols, w);
    if dist == null {
      return;
    }
    StartTop(F, points, rows, cols);
    ghost var V := Rows(dist);
    ghost var C := StartFollows(F, points, rows, cols, V);
    for i := 1 to cols
      invariant UnitTop(F, Rows(dist), cols, i) && Follows(F, V, Rows(dist), C, cols, i)
    {
      PivotStays(F, points, rows, cols, V, Rows(dist), C, i);
      C := FollowsPivot(F, V, Rows(dist), C, cols, i);
      PlacePivot(F, dist, i);
      C := ClearRow(F, dist, i, V, C);
    }
    ghost var S := Rows(dist);
    UnitRow(F, dist);
    ghost var D := Rows(dist);
    TopShape(F, D, cols, cols);
    UnitColumn(F, dist);
    TopShape(F, Rows(dist), cols, cols);
    TopEntries(F, Rows(dist), cols);
    EntriesFixed(F, points, rows, cols, S, C, D, Rows(dist));
  }

  // Row 0 of the extended matrix is a unit row already.
  lemma StartFollows<E(!new)>(F: Field<E>, points: seq<E>, rows: nat, n: nat, V: seq<seq<E>>)
    returns (C: seq<seq<E>>)
    requires F.Valid() && Points(F, points) && 0 < n < rows <= |points| && V == VandermondeRows(F, points, rows, n)
    ensures Follows(F, V, V, C, n, 1)
  {
    VandermondeIsMatrix(F, points, rows, n);
    CombinesStart(F, V, n);
    C := Identity(F, n);
  }

  lemma PivotStays<E(!new)>(F: Field<E>, points: seq<E>, rows: nat, n: nat, V: seq<seq<E>>, M: seq<seq<E>>,
                            C: seq<seq<E>>, i: nat)
    requires F.Valid() && Points(F, points) && 0 < n < rows <= |points| && i < n
    requires V == VandermondeRows(F, points, rows, n) && UnitTop(F, M, n, i) && Follows(F, V, M, C, n, i)
    ensures i < |M| && |M[i]| == n && M[i][i] != F.zero && forall r | 0 <= r < |M| :: |M[r]| == n
  {
    hide AnyRows;
    TopShape(F, M, n, i);
    PivotHere(F, points, rows, n, M, C, i);
  }

  lemma TopEntries<E(!new)>(F: Field<E>, M: seq<seq<E>>, n: nat)
    requires UnitTop(F, M, n, n)
    ensures n < |M| && forall r, j | 0 <= r < n && 0 <= j < n ::
      |M[r]| == n && M[r][j] == if j == r then F.one else F.zero
  {
    hide AnyRows;
  }

  /** Below the identity, entry (r, j) is (p[n] + p[j]) p[r] / ((p[r] + p[j]) p[n]), and in the last row, when it is
      not row n, (p[n] + p[j]) / p[n]. */
  ghost predicate LowEntries<E(!new)>(F: Field<E>, points: seq<E>, rows: nat, n: nat, M: seq<seq<E>>)
    requires n < rows <= |points| && |M| == rows && forall r | 0 <= r < rows :: |M[r]| == n
  {
    && (forall r, j | n <= r < rows - 1 && 0 <= j < n ::
          F.mul(M[r][j], F.mul(F.add(points[r], points[j]), points[n])) ==
          F.mul(F.add(points[n], points[j]), points[r]))
    && (forall j | n < rows - 1 && 0 <= j < n ::
          F.mul(M[rows - 1][j], points[n]) == F.add(points[n], points[j]))
  }

  // These equations have one solution.
  lemma LowEntriesUnique<E(!new)>(F: Field<E>, points: seq<E>, rows: nat, n: nat, M: seq<seq<E>>, M': seq<seq<E>>)
    requires F.Valid() && Points(F, points) && 0 < n < rows - 1 && rows <= |points|
    requires IsMatrix(F, M, rows, n) && IsMatrix(F, M', rows, n)
    requires forall r | 0 <= r < rows :: |M[r]| == |M'[r]| == n
    requires LowEntries(F, points, rows, n, M) && LowEntries(F, points, rows, n, M')
    ensures forall r | n <= r < rows :: M[r] == M'[r]
  {
    forall r, j | n <= r < rows && 0 <= j < n
      ensures M[r][j] == M'[r][j]
    {
      assert IsVec(F, M[r], n) && IsVec(F, M'[r], n);
      var x, y := F.add(points[r], points[j]), points[n];
      F.Closed(points[r], points[j]);
      F.AddCancel(points[r], points[j]);
      F.Closed(x, y);
      F.MulNonzero(x, y);
      CancelRight(F, if r < rows - 1 then F.mul(x, y) else y, M[r][j], M'[r][j]);
    }
  }

  lemma CancelRight<E(!new)>(F: Field<E>, w: E, a: E, b: E)
    requires F.Valid() && F.elem(w) && F.elem(a) && F.elem(b) && w != F.zero && F.mul(a, w) == F.mul(b, w)
    ensures a == b
  {
    assert F.MulLaws(a, w, w) && F.MulLaws(b, w, w);
    F.MulCancel(w, a, b);
  }

  /** What the two scalings leave below the identity, in terms of the points. */
  lemma EntriesFixed<E(!new)>(F: Field<E>, points: seq<E>, rows: nat, n: nat, S: seq<seq<E>>, C: seq<seq<E>>,
                              D: seq<seq<E>>, M: seq<seq<E>>)
    requires F.Valid() && Points(F, points) && 0 < n < rows <= |points| && |S| == |D| == |M| == rows
    requires UnitTop(F, S, n, n) && Follows(F, VandermondeRows(F, points, rows, n), S, C, n, n)
    requires forall r | 0 <= r < rows :: |S[r]| == |D[r]| == |M[r]| == n
    requires forall r | 0 <= r < rows :: IsVec(F, D[r], n) && IsVec(F, M[r], n)
    requires forall r, c | n <= r < rows && 0 <= c < n :: F.mul(D[r][c], S[n][c]) == S[r][c]
    requires forall r, c | n <= r < rows && 0 <= c < n :: F.mul(M[r][c], D[r][0]) == D[r][c]
    ensures LowEntries(F, points, rows, n, M)
  {
    hide AnyRows, Combines, Fresh, Points, VandermondeRows, Gap;
    forall r, j | n <= r < rows && 0 <= j < n
      ensures F.mul(M[r][j], F.mul(Gap(F, points, rows, r, j), Gap(F, points, rows, n, 0))) ==
        F.mul(Gap(F, points, rows, n, j), Gap(F, points, rows, r, 0))
    {
      assert IsVec(F, D[r], n) && IsVec(F, M[r], n);
      EntryFixed(F, points, rows, n, S, C, j, r, D[r][j], D[r][0], M[r][j]);
    }
    forall r, j | n <= r < rows && 0 <= j < n && n < rows - 1
      ensures r < rows - 1 ==>
        F.mul(M[r][j], F.mul(F.add(points[r], points[j]), points[n])) ==
        F.mul(F.add(points[n], points[j]), points[r])
      ensures r == rows - 1 ==> F.mul(M[r][j], points[n]) == F.add(points[n], points[j])
    {
      GapsAre(F, points, rows, n, r, j);
    }
  }

  lemma GapsAre<E(!new)>(F: Field<E>, points: seq<E>, rows: nat, n: nat, r: nat, j: nat)
    requires F.Valid() && Points(F, points) && 0 < n <= r < rows <= |points| && j < n < rows - 1
    ensures Gap(F, points, rows, n, 0) == points[n] && Gap(F, points, rows, n, j) == F.add(points[n], points[j])
    ensures r < rows - 1 ==> Gap(F, points, rows, r, 0) == points[r]
    ensures r < rows - 1 ==> Gap(F, points, rows, r, j) == F.add(points[r], points[j])
    ensures r == rows - 1 ==> Gap(F, points, rows, r, 0) == Gap(F, points, rows, r, j) == F.one
    ensures F.mul(F.one, points[n]) == points[n]
    ensures F.mul(F.add(points[n], points[j]), F.one) == F.add(points[n], points[j])
  {
    F.AddZero(points[n]);
    F.AddZero(points[r]);
    F.MulOne(points[n]);
    F.Closed(points[n], points[j]);
    F.MulOne(F.add(points[n], points[j]));
  }

  lemma StartTop<E(!new)>(F: Field<E>, points: seq<E>, rows: nat, cols: nat)
    requires F.Valid() && Points(F, points) && 0 < cols < rows <= |points|
    ensures UnitTop(F, VandermondeRows(F, points, rows, cols), cols, 1)
  {
    VandermondeAnyRows(F, points, rows, cols);
    assert VandermondeRows(F, points, rows, cols)[0] == VandermondeRow(F, points, rows, cols, 0);
  }

  /** reed_sol_vandermonde_coding_matrix: the rows below the identity. */
  method VandermondeCodingMatrix<E(==,!new)>(F: Field<E>, points: seq<E>, k: nat, m: nat, w: nat)
    returns (coding: array2?<E>)
    requires F.Valid() && Points(F, points) && |points| == Pow2(w) && k > 0
    requires w >= 30 ==> k + m <= Pow2(w)
    ensures coding == null <==> m == 0 || Pow2(w) < k + m
    ensures coding != null ==>
      fresh(coding) && coding.Length0 == m && coding.Length1 == k && IsMatrix(F, Rows(coding), m, k)
    ensures coding != null ==> AnyRows(F, Systematic(F, k, Rows(coding)), k)
    ensures coding != null ==> AllOnes(F, Rows(coding)[0]) && forall i | 0 <= i < m :: Rows(coding)[i][0] == F.one
    ensures coding != null ==> forall i, j | 0 <= i < m - 1 && 0 <= j < k ::
      F.mul(Rows(coding)[i][j], F.mul(F.add(points[k + i], points[j]), points[k])) ==
      F.mul(F.add(points[k], points[j]), points[k + i])
    ensures coding != null && m > 1 ==> forall j | 0 <= j < k ::
      F.mul(Rows(coding)[m - 1][j], points[k]) == F.add(points[k], points[j])
  {
    hide UnitTop, AnyRows, Pow2, Points, Systematic, LowEntries;
    var vdm := BigVandermonde(F, points, k + m, k, w);
    if vdm == null {
      return null;
    }
    TopShape(F, Rows(vdm), k, k);
    coding := LowRows(vdm, k, m);
    TopIsSystematic(F, Rows(vdm), k, Rows(coding));
    CodingEntries(F, points, k, m, Rows(vdm), Rows(coding));
  }

  // A copy of the rows from row k on.
  method LowRows<E>(vdm: array2<E>, k: nat, m: nat) returns (coding: array2<E>)
    requires vdm.Length0 == k + m
    ensures fresh(coding) && coding.Length0 == m && coding.Length1 == vdm.Length1
    ensures forall i | 0 <= i < m :: Rows(coding)[i] == Rows(vdm)[k + i]
  {
    coding := new E[m, vdm.Length1]((i, j) requires 0 <= i < m && 0 <= j < vdm.Length1 reads vdm => vdm[k + i, j]);
  }

  lemma CodingEntries<E(!new)>(F: Field<E>, points: seq<E>, k: nat, m: nat, M: seq<seq<E>>, C: seq<seq<E>>)
    requires 0 < k && k + m <= |points| && m > 0 && |M| == k + m && |C| == m
    requires (forall r | 0 <= r < k + m :: |M[r]| == k) && forall i | 0 <= i < m :: C[i] == M[k + i]
    requires LowEntries(F, points, k + m, k, M)
    ensures forall i | 0 <= i < m :: |C[i]| == k
    ensures forall i, j | 0 <= i < m - 1 && 0 <= j < k ::
      F.mul(C[i][j], F.mul(F.add(points[k + i], points[j]), points[k])) ==
      F.mul(F.add(points[k], points[j]), points[k + i])
    ensures m > 1 ==> forall j | 0 <= j < k ::
      F.mul(C[m - 1][j], points[k]) == F.add(points[k], points[j])
  {
    assert m > 1 ==> C[m - 1] == M[k + m - 1];
  }

  lemma TopIsSystematic<E(!new)>(F: Field<E>, M: seq<seq<E>>, k: nat, C: seq<seq<E>>)
    requires F.Valid() && UnitTop(F, M, k, k) && |M| == k + |C| && forall i | 0 <= i < |C| :: C[i] == M[k + i]
    ensures Systematic(F, k, C) == M
  {
    forall d | 0 <= d < k + |C|
      ensures Systematic(F, k, C)[d] == M[d]
    {
      if d >= k {
        assert C[d - k] == M[k + (d - k)];
      }
    }
  }

}

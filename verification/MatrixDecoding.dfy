/** Decoding with a matrix over a field (jerasure.c): lost data through the inverse of the survivors' rows, or
    through the parity device when its row is all ones; then lost coding devices by encoding again. */
module MatrixDecoding {
  import opened Fields
  import opened LinearAlgebra
  import opened Elimination
  import opened Buffers
  import opened Erasures
  import opened Options
  import opened SourceDevices
  import opened MatrixEncoding

  // The row that gives device d from the data.
  ghost function DeviceRow<E(!new)>(F: Field<E>, k: nat, M: seq<seq<E>>, d: nat): seq<E>
    requires d < k + |M|
  {
    if d < k then UnitVec(F, k, d) else M[d - k]
  }

  ghost function DeviceRows<E(!new)>(F: Field<E>, k: nat, M: seq<seq<E>>, ids: seq<nat>): (A: seq<seq<E>>)
    requires forall i | 0 <= i < |ids| :: ids[i] < k + |M|
    ensures |A| == |ids|
  {
    seq(|ids|, i requires 0 <= i < |ids| => DeviceRow(F, k, M, ids[i]))
  }

  /** Every device holds the product of its row with the data. */
  ghost predicate MatrixCodeword<E(!new)>(F: Field<E>, k: nat, M: seq<seq<E>>, S: seq<seq<E>>, size: nat) {
    && IsMatrix(F, M, |M|, k) && Elems(F, S, k + |M|, size)
    && forall i | 0 <= i < |M| :: CodedAt(F, k, M[i], S, k + i, size)
  }

  lemma DeviceHolds<E(!new)>(F: Field<E>, k: nat, M: seq<seq<E>>, S: seq<seq<E>>, size: nat, d: nat, b: nat)
    requires F.Valid() && MatrixCodeword(F, k, M, S, size) && d < k + |M| && b < size
    ensures IsVec(F, Slice(S, Range(k), b), k) && IsVec(F, DeviceRow(F, k, M, d), k)
    ensures S[d][b] == Dot(F, DeviceRow(F, k, M, d), Slice(S, Range(k), b))
  {
    SliceElems(F, Range(k), S, size, b);
    var x := Slice(S, Range(k), b);
    if d < k {
      DotUnit(F, x, d);
      assert IsVec(F, UnitVec(F, k, d), k);
    } else {
      assert CodedAt(F, k, M[d - k], S, k + (d - k), size);
      assert IsVec(F, M[d - k], k);
    }
  }

  // ---- The decoding matrix.

  // The first k devices that survive.
  ghost function FirstSurvivors(erased: seq<bool>, k: nat): (ids: seq<nat>)
    requires |Where(erased, 0, |erased|, false)| >= k
    ensures |ids| == k
    ensures forall i | 0 <= i < k :: ids[i] < |erased| && !erased[ids[i]]
  {
    Where(erased, 0, |erased|, false)[..k]
  }

  /** They are listed in increasing order, and no survivor before the last of them is left out. */
  lemma FirstSurvivorsExact(erased: seq<bool>, k: nat)
    requires |Where(erased, 0, |erased|, false)| >= k
    ensures Increasing(FirstSurvivors(erased, k))
    ensures forall d | 0 <= d < |erased| && !erased[d] && d !in FirstSurvivors(erased, k) ::
      forall i | 0 <= i < k :: FirstSurvivors(erased, k)[i] < d
  {
    hide Where;
    WhereOrdered(erased, 0, |erased|, false);
    var all := Where(erased, 0, |erased|, false);
    forall d, i | 0 <= d < |erased| && !erased[d] && d !in FirstSurvivors(erased, k) && 0 <= i < k
      ensures FirstSurvivors(erased, k)[i] < d
    {
      var x :| 0 <= x < |all| && all[x] == d;
      NotInPrefix(all, k, x);
    }
  }

  lemma NotInPrefix(s: seq<nat>, k: nat, x: nat)
    requires k <= |s| && x < |s| && s[x] !in s[..k]
    ensures x >= k
  {
  }

  method ListSurvivors(k: nat, erased: array<bool>) returns (dmIds: array<nat>)
    requires |Where(erased[..], 0, erased.Length, false)| >= k
    ensures fresh(dmIds) && dmIds[..] == FirstSurvivors(erased[..], k)
  {
    ghost var e := erased[..];
    dmIds := new nat[k](i => 0);
    var i, j := 0, 0;
    WhereAppend(e, 0, 0, |e|, false);
    while j < k
      invariant 0 <= j <= k && 0 <= i <= |e| && erased[..] == e
      invariant dmIds[..j] == Where(e, 0, i, false)
      decreases |e| - i
    {
      SurvivorLeft(e, k, i, j);
      if !erased[i] {
        dmIds[j] := i;
        j := j + 1;
      }
      i := i + 1;
    }
    WhereAppend(e, 0, i, |e|, false);
    assert dmIds[..] == dmIds[..k];
  }

  lemma SurvivorLeft(e: seq<bool>, k: nat, i: nat, j: nat)
    requires |Where(e, 0, |e|, false)| >= k && i <= |e| && j == |Where(e, 0, i, false)| && j < k
    ensures i < |e|
  {
  }

  /** jerasure_make_decoding_matrix. */
  method MakeDecodingMatrix<E(==,!new)>(F: Field<E>, k: nat, m: nat, matrix: array2<E>, erased: array<bool>)
    returns (r: int, decodingMatrix: array2<E>, dmIds: seq<nat>)
    requires F.Valid() && IsMatrix(F, Rows(matrix), m, k) && erased.Length == k + m
    requires |Where(erased[..], 0, k + m, false)| >= k
    ensures fresh(decodingMatrix) && dmIds == FirstSurvivors(erased[..], k)
    ensures IsMatrix(F, DeviceRows(F, k, Rows(matrix), dmIds), k, k)
    ensures r == 0 || r == -1
    ensures r == 0 <==> Nonsingular(F, DeviceRows(F, k, Rows(matrix), dmIds), k)
    ensures r == 0 ==>
      IsMatrix(F, Rows(decodingMatrix), k, k) &&
      Inverses(F, DeviceRows(F, k, Rows(matrix), dmIds), Rows(decodingMatrix), k)
  {
    hide FirstSurvivors;
    var ids := ListSurvivors(k, erased);
    dmIds := ids[..];
    var tmpmat := FillTemporary(F, k, m, matrix, dmIds);
    decodingMatrix := new E[k, k]((i, j) => F.zero);
    ghost var A := DeviceRows(F, k, Rows(matrix), dmIds);
    r := InvertMatrix(F, tmpmat, decodingMatrix);
    assert Rows(matrix) == old(Rows(matrix));
  }

  method FillTemporary<E(==,!new)>(F: Field<E>, k: nat, m: nat, matrix: array2<E>, dmIds: seq<nat>)
    returns (tmpmat: array2<E>)
    requires F.Valid() && IsMatrix(F, Rows(matrix), m, k) && |dmIds| == k && forall i | 0 <= i < k :: dmIds[i] < k + m
    ensures fresh(tmpmat) && tmpmat.Length0 == tmpmat.Length1 == k
    ensures Rows(tmpmat) == DeviceRows(F, k, Rows(matrix), dmIds) && IsMatrix(F, Rows(tmpmat), k, k)
  {
    hide DeviceRow, DeviceRows, IsMatrix;
    ghost var M := Rows(matrix);
    RowCount(F, M, m, k);
    ghost var A := DeviceRows(F, k, M, dmIds);
    DeviceRowsShape(F, k, m, M, dmIds);
    tmpmat := new E[k, k]((i, j) => F.zero);
    for i := 0 to k
      invariant Rows(matrix) == M && forall r, c | 0 <= r < i && 0 <= c < k :: tmpmat[r, c] == A[r][c]
    {
      DeviceRowAt(F, k, M, dmIds, i);
      if dmIds[i] < k {
        for j := 0 to k
          invariant Rows(matrix) == M && forall r, c | 0 <= r < i && 0 <= c < k :: tmpmat[r, c] == A[r][c]
          invariant forall c | 0 <= c < j :: tmpmat[i, c] == F.zero
        {
          tmpmat[i, j] := F.zero;
        }
        tmpmat[i, dmIds[i]] := F.one;
      } else {
        for j := 0 to k
          invariant Rows(matrix) == M && forall r, c | 0 <= r < i && 0 <= c < k :: tmpmat[r, c] == A[r][c]
          invariant forall c | 0 <= c < j :: tmpmat[i, c] == A[i][c]
        {
          tmpmat[i, j] := matrix[dmIds[i] - k, j];
        }
      }
    }
    assert forall r | 0 <= r < k :: Rows(tmpmat)[r] == A[r];
    assert Rows(tmpmat) == A;
  }

  lemma RowCount<E(!new)>(F: Field<E>, M: seq<seq<E>>, m: nat, k: nat)
    requires IsMatrix(F, M, m, k)
    ensures |M| == m
  {
  }

  lemma DeviceRowsShape<E(!new)>(F: Field<E>, k: nat, m: nat, M: seq<seq<E>>, ids: seq<nat>)
    requires F.Valid() && IsMatrix(F, M, m, k) && |ids| == k && forall i | 0 <= i < k :: ids[i] < k + m
    ensures |M| == m && IsMatrix(F, DeviceRows(F, k, M, ids), k, k)
    ensures forall i | 0 <= i < k :: |DeviceRows(F, k, M, ids)[i]| == k
  {
    forall i | 0 <= i < k
      ensures IsVec(F, DeviceRows(F, k, M, ids)[i], k)
    {
      if ids[i] >= k {
        assert IsVec(F, M[ids[i] - k], k);
      }
    }
  }

  lemma DeviceRowAt<E(!new)>(F: Field<E>, k: nat, M: seq<seq<E>>, ids: seq<nat>, i: nat)
    requires i < |ids| && forall x | 0 <= x < |ids| :: ids[x] < k + |M|
    ensures ids[i] >= k ==> DeviceRows(F, k, M, ids)[i] == M[ids[i] - k]
    ensures ids[i] < k ==> |DeviceRows(F, k, M, ids)[i]| == k
    ensures ids[i] < k ==>
      forall c | 0 <= c < k :: DeviceRows(F, k, M, ids)[i][c] == if c == ids[i] then F.one else F.zero
  {
  }

  // ---- What one product recovers.

  // Row i of the inverse, with the survivors as sources, gives back data device i.
  lemma InverseRowRecovers<E(!new)>(F: Field<E>, k: nat, M: seq<seq<E>>, S: seq<seq<E>>, size: nat, ids: seq<nat>,
                                    D: seq<seq<E>>, i: nat, b: nat)
    requires F.Valid() && MatrixCodeword(F, k, M, S, size) && |ids| == k && (forall x | 0 <= x < k :: ids[x] < k + |M|)
    requires IsMatrix(F, DeviceRows(F, k, M, ids), k, k) && IsMatrix(F, D, k, k)
    requires Inverses(F, DeviceRows(F, k, M, ids), D, k)
    requires i < k && b < size
    ensures Dot(F, D[i], Slice(S, ids, b)) == S[i][b]
  {
    hide Dot, DeviceRow, MatrixCodeword;
    assert Elems(F, S, k + |M|, size) by { CodewordElems(F, k, M, S, size); }
    var A, x := DeviceRows(F, k, M, ids), Slice(S, Range(k), b);
    SliceElems(F, Range(k), S, size, b);
    forall j | 0 <= j < k
      ensures Slice(S, ids, b)[j] == Dot(F, A[j], x)
    {
      DeviceHolds(F, k, M, S, size, ids[j], b);
    }
    assert Slice(S, ids, b) == MatVec(F, A, x);
    assert MatVec(F, D, MatVec(F, A, x))[i] == x[i];
  }

  lemma CodewordShape<E(!new)>(F: Field<E>, k: nat, M: seq<seq<E>>, S: seq<seq<E>>, size: nat)
    requires MatrixCodeword(F, k, M, S, size)
    ensures IsMatrix(F, M, |M|, k) && |S| == k + |M|
  {
  }

  lemma CodewordElems<E(!new)>(F: Field<E>, k: nat, M: seq<seq<E>>, S: seq<seq<E>>, size: nat)
    requires MatrixCodeword(F, k, M, S, size)
    ensures Elems(F, S, k + |M|, size)
  {
  }

  // No row of an inverse is zero, so its target is written.
  lemma InverseRowShows<E(!new)>(F: Field<E>, D: seq<seq<E>>, y: seq<E>, e: seq<E>, k: nat, i: nat)
    requires F.Valid() && IsMatrix(F, D, k, k) && IsVec(F, y, k) && i < k && MatVec(F, D, y) == e && e[i] != F.zero
    ensures !ZeroRow(F, D[i], k)
  {
    assert MatVec(F, D, y)[i] == Dot(F, D[i], y);
    if ZeroRow(F, D[i], k) {
      DotZero(F, D[i], y, k);
    }
  }

  lemma InverseRowNonzero<E(!new)>(F: Field<E>, A: seq<seq<E>>, D: seq<seq<E>>, k: nat, i: nat)
    requires F.Valid() && IsMatrix(F, A, k, k) && IsMatrix(F, D, k, k) && Inverses(F, A, D, k) && i < k
    ensures !ZeroRow(F, D[i], k)
  {
    var e := UnitVec(F, k, i);
    assert IsVec(F, e, k);
    MatVecIsVec(F, A, e, k, k);
    var y := MatVec(F, A, e);
    assert MatVec(F, D, y) == e;
    hide MatVec, Inverses;
    InverseRowShows(F, D, y, e, k, i);
  }

  // The data devices but one, and the parity device.
  function SkipIds(k: nat, lost: nat): (ids: seq<nat>)
    ensures |ids| == k && forall i | 0 <= i < k :: ids[i] == if i < lost then i else i + 1
  {
    seq(k, i requires 0 <= i < k => if i < lost then i else i + 1)
  }

  ghost predicate AllOnes<E(!new)>(F: Field<E>, row: seq<E>) {
    forall j | 0 <= j < |row| :: row[j] == F.one
  }

  ghost predicate Skips<E>(x: seq<E>, y: seq<E>, lost: nat, n: nat) {
    lost < |x| && n < |x| == |y| && forall i | 0 <= i < n ::
      (i < lost ==> y[i] == x[i]) && (i >= lost ==> y[i] == x[i + 1])
  }

  // Leaving x[lost] out of a sum.
  lemma {:induction false} SumWithout<E(!new)>(F: Field<E>, ones: seq<E>, x: seq<E>, y: seq<E>, lost: nat, n: nat)
    requires F.Valid() && |ones| == |x| == |y| && AllOnes(F, ones) && IsVec(F, x, |x|) && IsVec(F, y, |y|)
    requires Skips(x, y, lost, n)
    ensures n <= lost ==> DotTo(F, ones, y, n) == DotTo(F, ones, x, n)
    ensures n >= lost ==> DotTo(F, ones, x, n + 1) == F.add(DotTo(F, ones, y, n), x[lost])
  {
    F.MulOne(x[n]);
    if n > 0 {
      assert Skips(x, y, lost, n - 1);
      SumWithout(F, ones, x, y, lost, n - 1);
      F.MulOne(y[n - 1]);
      if n > lost {
        DotElem(F, ones, y, n - 1);
        var d := DotTo(F, ones, y, n - 1);
        assert F.AddLaws(d, x[lost], x[n]);
        assert F.AddLaws(d, x[n], x[lost]);
        assert F.AddLaws(x[lost], x[n], d);
      }
    }
  }

  lemma SkipSlice<E(!new)>(k: nat, S: seq<seq<E>>, lost: nat, b: nat)
    requires k < |S| && lost < k && forall d | 0 <= d < |S| :: b < |S[d]|
    ensures Skips(Slice(S, Range(k), b), Slice(S, SkipIds(k, lost), b), lost, k - 1)
    ensures Slice(S, SkipIds(k, lost), b)[k - 1] == S[k][b]
  {
  }

  // An all-ones row gives the one device left out.
  lemma ParityRecovers<E(!new)>(F: Field<E>, k: nat, M: seq<seq<E>>, S: seq<seq<E>>, size: nat, lost: nat, b: nat)
    requires F.Valid() && MatrixCodeword(F, k, M, S, size) && |M| > 0 && AllOnes(F, M[0]) && lost < k && b < size
    ensures Dot(F, M[0], Slice(S, SkipIds(k, lost), b)) == S[lost][b]
  {
    hide SkipIds, Range, Slice;
    var ids := SkipIds(k, lost);
    var x, y := Slice(S, Range(k), b), Slice(S, ids, b);
    SliceElems(F, Range(k), S, size, b);
    SliceElems(F, ids, S, size, b);
    SkipSlice(k, S, lost, b);
    SumWithout(F, M[0], x, y, lost, k - 1);
    assert CodedAt(F, k, M[0], S, k + 0, size);
    assert x[lost] == S[lost][b] by { SliceAt(k, S, lost, b); }
    assert IsVec(F, M[0], k);
    CancelLast(F, M[0], y, k, x[lost]);
  }

  lemma SliceAt<E(!new)>(k: nat, S: seq<seq<E>>, d: nat, b: nat)
    requires k <= |S| && d < k && forall d | 0 <= d < |S| :: b < |S[d]|
    ensures Slice(S, Range(k), b)[d] == S[d][b]
  {
  }

  lemma CancelLast<E(!new)>(F: Field<E>, ones: seq<E>, y: seq<E>, k: nat, v: E)
    requires F.Valid() && |ones| == |y| == k > 0 && AllOnes(F, ones) && IsVec(F, ones, k) && IsVec(F, y, k) && F.elem(v)
    requires y[k - 1] == F.add(DotTo(F, ones, y, k - 1), v)
    ensures Dot(F, ones, y) == v
  {
    var d := DotTo(F, ones, y, k - 1);
    DotElem(F, ones, y, k - 1);
    F.MulOne(y[k - 1]);
    F.AddCancel(v, d);
    assert F.AddLaws(d, v, d);
  }

  /** What encoding leaves is a codeword, when no row of the matrix is zero. */
  lemma EncodingGivesCodeword<E(!new)>(F: Field<E>, k: nat, M: seq<seq<E>>, S: seq<seq<E>>, T: seq<seq<E>>, size: nat)
    requires EncodedTo(F, k, M, S, T, |M|, size) && forall i | 0 <= i < |M| :: !ZeroRow(F, M[i], k)
    ensures MatrixCodeword(F, k, M, T, size)
  {
    forall i | 0 <= i < |M|
      ensures CodedAt(F, k, M[i], T, k + i, size)
    {
      assert EncodedRow(F, k, M, S, T, i, size);
    }
  }

  // ---- Decoding.

  /** The devices that survive hold what they held. */
  ghost predicate OnlyLostChange<E(!new)>(e: seq<bool>, S: seq<seq<E>>, T: seq<seq<E>>) {
    |e| == |S| == |T| && forall d | 0 <= d < |e| && !e[d] :: T[d] == S[d]
  }

  lemma KeptTwice<E(!new)>(e: seq<bool>, S: seq<seq<E>>, T: seq<seq<E>>, U: seq<seq<E>>)
    requires OnlyLostChange(e, S, T) && OnlyLostChange(e, T, U)
    ensures OnlyLostChange(e, S, U)
  {
  }

  lemma KeptByDot<E(!new)>(F: Field<E>, e: seq<bool>, row: seq<E>, ids: seq<nat>, dest: nat, S: seq<seq<E>>,
                           T: seq<seq<E>>, size: nat)
    requires Aligned(F, row, ids, T, |T|, size) && dest < |T| && OnlyLostChange(e, S, T) && e[dest]
    ensures OnlyLostChange(e, S, DotInto(F, row, ids, dest, T, size))
  {
    hide Dot, Slice, ZeroRow, Aligned;
  }

  // Lost device d is a coding device that is never written, because its row is zero.
  ghost predicate Unwritten<E(!new)>(F: Field<E>, k: nat, M: seq<seq<E>>, e: seq<bool>, d: nat)
    requires IsMatrix(F, M, |M|, k)
  {
    k <= d < k + |M| && d < |e| && e[d] && ZeroRow(F, M[d - k], k)
  }

  /** What decoding leaves, when S is what the devices held and now what they hold. */
  ghost function Expected<E(!new)>(F: Field<E>, k: nat, M: seq<seq<E>>, e: seq<bool>, S: seq<seq<E>>,
                                   now: seq<seq<E>>): (X: seq<seq<E>>)
    requires IsMatrix(F, M, |M|, k) && |S| == |now|
    ensures |X| == |S|
  {
    seq(|S|, d requires 0 <= d < |S| => if Unwritten(F, k, M, e, d) then now[d] else S[d])
  }

  // The surviving devices, and those before n, are as expected, and the others as they were.
  ghost predicate Restored<E(!new)>(e: seq<bool>, X: seq<seq<E>>, now: seq<seq<E>>, T: seq<seq<E>>, n: nat) {
    |e| == |X| == |now| == |T| && forall d | 0 <= d < |e| :: T[d] == if !e[d] || d < n then X[d] else now[d]
  }

  lemma SameSlice<E(!new)>(S: seq<seq<E>>, T: seq<seq<E>>, ids: seq<nat>, size: nat, b: nat)
    requires |S| == |T| && (forall d | 0 <= d < |S| :: |S[d]| == size && |T[d]| == size) && b < size
    requires forall i | 0 <= i < |ids| :: ids[i] < |S| && T[ids[i]] == S[ids[i]]
    ensures Slice(T, ids, b) == Slice(S, ids, b)
  {
  }

  // A nonzero row whose product with sources that are right is device n makes device n right.
  lemma RestoreOne<E(!new)>(F: Field<E>, e: seq<bool>, S: seq<seq<E>>, X: seq<seq<E>>, now: seq<seq<E>>, T: seq<seq<E>>,
                            n: nat, row: seq<E>, ids: seq<nat>, size: nat)
    requires Restored(e, X, now, T, n) && n < |e| && Elems(F, S, |e|, size) && Aligned(F, row, ids, T, |e|, size)
    requires X[n] == S[n]
    requires forall i | 0 <= i < |ids| :: (!e[ids[i]] || ids[i] < n) && X[ids[i]] == S[ids[i]]
    requires !ZeroRow(F, row, |row|) && forall b | 0 <= b < size :: Dot(F, row, Slice(S, ids, b)) == S[n][b]
    ensures Restored(e, X, now, DotInto(F, row, ids, n, T, size), n + 1)
  {
    var T' := DotInto(F, row, ids, n, T, size);
    forall b | 0 <= b < size
      ensures T'[n][b] == S[n][b]
    {
      SameSlice(S, T, ids, size, b);
    }
    assert T'[n] == S[n];
  }

  lemma DotIntoElems<E(!new)>(F: Field<E>, row: seq<E>, ids: seq<nat>, dest: nat, S: seq<seq<E>>, size: nat)
    requires F.Valid() && Aligned(F, row, ids, S, |S|, size) && dest < |S|
    ensures Elems(F, DotInto(F, row, ids, dest, S, size), |S|, size)
  {
    forall b | 0 <= b < size
      ensures F.elem(Dot(F, row, Slice(S, ids, b)))
    {
      SliceElems(F, ids, S, size, b);
      DotElem(F, row, Slice(S, ids, b), |row|);
    }
  }

  // What is being decoded: a codeword S of the matrix M, of which the surviving buffers remain; now is what the
  // buffers held at first, T what they hold with the devices before n done.
  ghost predicate Remains<E(!new)>(F: Field<E>, k: nat, M: seq<seq<E>>, e: seq<bool>, S: seq<seq<E>>, now: seq<seq<E>>,
                                   T: seq<seq<E>>, size: nat, n: nat)
  {
    && MatrixCodeword(F, k, M, S, size) && |e| == k + |M| == |now|
    && Restored(e, Expected(F, k, M, e, S, now), now, T, n)
  }

  lemma ExpectedAt<E(!new)>(F: Field<E>, k: nat, M: seq<seq<E>>, e: seq<bool>, S: seq<seq<E>>, now: seq<seq<E>>, d: nat)
    requires IsMatrix(F, M, |M|, k) && |S| == |now| == |e| == k + |M| && d < |e|
    ensures d < k || !e[d] ==> Expected(F, k, M, e, S, now)[d] == S[d]
    ensures d >= k && !ZeroRow(F, M[d - k], k) ==> Expected(F, k, M, e, S, now)[d] == S[d]
    ensures d >= k && e[d] && ZeroRow(F, M[d - k], k) ==> Expected(F, k, M, e, S, now)[d] == now[d]
  {
  }

  ghost predicate Survivors<E(!new)>(F: Field<E>, k: nat, M: seq<seq<E>>, e: seq<bool>, ids: seq<nat>, D: seq<seq<E>>) {
    && |ids| == k && |e| == k + |M| && (forall i | 0 <= i < k :: ids[i] < |e| && !e[ids[i]])
    && IsMatrix(F, DeviceRows(F, k, M, ids), k, k) && IsMatrix(F, D, k, k)
    && Inverses(F, DeviceRows(F, k, M, ids), D, k)
  }

  lemma InverseStep<E(!new)>(F: Field<E>, k: nat, M: seq<seq<E>>, e: seq<bool>, S: seq<seq<E>>, now: seq<seq<E>>,
                             T: seq<seq<E>>, size: nat, i: nat, ids: seq<nat>, D: seq<seq<E>>)
    requires F.Valid() && Survivors(F, k, M, e, ids, D) && i < k && Elems(F, T, k + |M|, size) && e[i]
    ensures Aligned(F, D[i], ids, T, |T|, size) && i !in ids
    ensures Elems(F, DotInto(F, D[i], ids, i, T, size), k + |M|, size)
    ensures Remains(F, k, M, e, S, now, T, size, i) ==>
      Remains(F, k, M, e, S, now, DotInto(F, D[i], ids, i, T, size), size, i + 1)
  {
    hide DeviceRows, Inverses, Dot, MatrixCodeword, DotInto, ZeroRow, Restored, Expected;
    assert IsVec(F, D[i], k);
    DotIntoElems(F, D[i], ids, i, T, size);
    if Remains(F, k, M, e, S, now, T, size, i) {
      CodewordElems(F, k, M, S, size);
      InverseRowNonzero(F, DeviceRows(F, k, M, ids), D, k, i);
      forall b | 0 <= b < size
        ensures Dot(F, D[i], Slice(S, ids, b)) == S[i][b]
      {
        InverseRowRecovers(F, k, M, S, size, ids, D, i, b);
      }
      CodewordShape(F, k, M, S, size);
      ExpectedAt(F, k, M, e, S, now, i);
      forall j | 0 <= j < k
        ensures Expected(F, k, M, e, S, now)[ids[j]] == S[ids[j]]
      {
        ExpectedAt(F, k, M, e, S, now, ids[j]);
      }
      RestoreOne(F, e, S, Expected(F, k, M, e, S, now), now, T, i, D[i], ids, size);
    }
  }

  lemma SkipStep<E(!new)>(k: nat, M: seq<seq<E>>, F: Field<E>, e: seq<bool>, S: seq<seq<E>>, now: seq<seq<E>>,
                          T: seq<seq<E>>, size: nat, i: nat, j: nat)
    requires Remains(F, k, M, e, S, now, T, size, i) && i <= j <= |e| && forall d | i <= d < j :: !e[d]
    ensures Remains(F, k, M, e, S, now, T, size, j)
  {
  }

  lemma ParityStep<E(!new)>(F: Field<E>, k: nat, M: seq<seq<E>>, e: seq<bool>, S: seq<seq<E>>, now: seq<seq<E>>,
                            T: seq<seq<E>>, size: nat, lost: nat)
    requires F.Valid() && IsMatrix(F, M, |M|, k) && |M| > 0 && AllOnes(F, M[0]) && Elems(F, T, k + |M|, size)
    requires |e| == k + |M| && lost < k && !e[k] && forall d | lost < d < k :: !e[d]
    ensures Aligned(F, M[0], SkipIds(k, lost), T, |T|, size) && lost !in SkipIds(k, lost)
    ensures Elems(F, DotInto(F, M[0], SkipIds(k, lost), lost, T, size), k + |M|, size)
    ensures Remains(F, k, M, e, S, now, T, size, lost) ==>
      Remains(F, k, M, e, S, now, DotInto(F, M[0], SkipIds(k, lost), lost, T, size), size, k)
  {
    hide Dot, MatrixCodeword, DotInto, Restored, Expected;
    var ids := SkipIds(k, lost);
    assert IsVec(F, M[0], k);
    assert Aligned(F, M[0], ids, T, |T|, size);
    DotIntoElems(F, M[0], ids, lost, T, size);
    if Remains(F, k, M, e, S, now, T, size, lost) {
      CodewordElems(F, k, M, S, size);
      assert M[0][0] == F.one;
      forall b | 0 <= b < size
        ensures Dot(F, M[0], Slice(S, ids, b)) == S[lost][b]
      {
        ParityRecovers(F, k, M, S, size, lost, b);
      }
      CodewordShape(F, k, M, S, size);
      ExpectedAt(F, k, M, e, S, now, lost);
      forall j | 0 <= j < k
        ensures Expected(F, k, M, e, S, now)[ids[j]] == S[ids[j]]
      {
        ExpectedAt(F, k, M, e, S, now, ids[j]);
      }
      RestoreOne(F, e, S, Expected(F, k, M, e, S, now), now, T, lost, M[0], ids, size);
      SkipStep(k, M, F, e, S, now, DotInto(F, M[0], ids, lost, T, size), size, lost + 1, k);
    }
  }

  // Lost coding devices have a row that writes them.
  ghost predicate WrittenRows<E(!new)>(F: Field<E>, k: nat, M: seq<seq<E>>, e: seq<bool>) {
    IsMatrix(F, M, |M|, k) && |e| == k + |M| && forall i | 0 <= i < |M| && e[k + i] :: !ZeroRow(F, M[i], k)
  }

  lemma CodingStep<E(!new)>(F: Field<E>, k: nat, M: seq<seq<E>>, e: seq<bool>, S: seq<seq<E>>, now: seq<seq<E>>,
                            T: seq<seq<E>>, size: nat, i: nat)
    requires F.Valid() && IsMatrix(F, M, |M|, k) && |e| == k + |M| && Elems(F, T, k + |M|, size) && i < |M| && e[k + i]
    ensures Aligned(F, M[i], Range(k), T, |T|, size) && k + i !in Range(k)
    ensures Elems(F, DotInto(F, M[i], Range(k), k + i, T, size), k + |M|, size)
    ensures Remains(F, k, M, e, S, now, T, size, k + i) ==>
      Remains(F, k, M, e, S, now, DotInto(F, M[i], Range(k), k + i, T, size), size, k + i + 1)
  {
    hide Dot, Restored, ZeroRow, Expected;
    assert IsVec(F, M[i], k);
    DotIntoElems(F, M[i], Range(k), k + i, T, size);
    if Remains(F, k, M, e, S, now, T, size, k + i) {
      ExpectedAt(F, k, M, e, S, now, k + i);
      if ZeroRow(F, M[i], k) {
        LeftAlone(e, Expected(F, k, M, e, S, now), now, T, k + i);
      } else {
        assert CodedAt(F, k, M[i], S, k + i, size);
        forall j | 0 <= j < k
          ensures Expected(F, k, M, e, S, now)[j] == S[j]
        {
          ExpectedAt(F, k, M, e, S, now, j);
        }
        RestoreOne(F, e, S, Expected(F, k, M, e, S, now), now, T, k + i, M[i], Range(k), size);
      }
    }
  }

  lemma LeftAlone<E(!new)>(e: seq<bool>, X: seq<seq<E>>, now: seq<seq<E>>, T: seq<seq<E>>, n: nat)
    requires Restored(e, X, now, T, n) && n < |e| && e[n] && X[n] == now[n]
    ensures Restored(e, X, now, T, n + 1)
  {
  }

  // ---- jerasure_matrix_decode.

  // The number of lost data devices, and the last of them (or k).
  method CountLostData(k: nat, erased: array<bool>) returns (edd: nat, lastdrive: nat)
    requires k <= erased.Length
    ensures edd == |Where(erased[..], 0, k, true)|
    ensures edd == 0 ==> lastdrive == k
    ensures edd > 0 ==> lastdrive < k && erased[lastdrive]
    ensures forall d | lastdrive < d < k :: !erased[d]
  {
    lastdrive := k;
    edd := 0;
    for i := 0 to k
      invariant edd == |Where(erased[..], 0, i, true)|
      invariant edd == 0 ==> lastdrive == k
      invariant edd > 0 ==> lastdrive < i && erased[lastdrive] && forall d | lastdrive < d < i :: !erased[d]
    {
      if erased[i] {
        edd := edd + 1;
        lastdrive := i;
      }
    }
  }

  // The decoding matrix is needed for two lost data devices, or for one that the parity cannot give.
  predicate NeedsInverse(k: nat, e: seq<bool>, rowKOnes: bool)
    requires k <= |e| && (rowKOnes ==> k < |e|)
  {
    var edd := |Where(e, 0, k, true)|;
    edd > 1 || (edd > 0 && (!rowKOnes || e[k]))
  }

  lemma EarlierLost(e: seq<bool>, k: nat, i: nat, l: nat)
    requires i < l < k <= |e| && e[i] && e[l]
    ensures |Where(e, 0, k, true)| > 1
  {
    WhereAppend(e, 0, l, k, true);
    WhereAppend(e, 0, i, l, true);
    FirstWhere(e, i, l, true);
    FirstWhere(e, l, k, true);
  }

  lemma LostFrom(e: seq<bool>, i: nat, k: nat)
    requires i < k <= |e|
    ensures |Where(e, i, k, true)| == |Where(e, i + 1, k, true)| + if e[i] then 1 else 0
  {
    WhereAppend(e, i, i + 1, k, true);
    assert Where(e, i, i, true) == [];
  }

  lemma NoneLost(e: seq<bool>, i: nat, k: nat)
    requires i <= k <= |e| && |Where(e, i, k, true)| == 0
    ensures forall d | i <= d < k :: !e[d]
  {
    WhereOrdered(e, i, k, true);
  }

  // The devices before device n hold what is expected, when those before device 0 did at the start.
  ghost predicate DataUpTo<E(!new)>(F: Field<E>, k: nat, M: seq<seq<E>>, e: seq<bool>, S: seq<seq<E>>,
                                    now: seq<seq<E>>, T: seq<seq<E>>, T': seq<seq<E>>, size: nat, n: nat) {
    && |e| == k + |M| && Elems(F, T', k + |M|, size) && OnlyLostChange(e, T, T')
    && (Remains(F, k, M, e, S, now, T, size, 0) ==> Remains(F, k, M, e, S, now, T', size, n))
  }

  lemma DataStart<E(!new)>(F: Field<E>, k: nat, M: seq<seq<E>>, e: seq<bool>, S: seq<seq<E>>, now: seq<seq<E>>,
                           T: seq<seq<E>>, size: nat)
    requires |e| == k + |M| && Elems(F, T, k + |M|, size)
    ensures DataUpTo(F, k, M, e, S, now, T, T, size, 0)
  {
  }

  lemma DataLost<E(!new)>(F: Field<E>, k: nat, M: seq<seq<E>>, e: seq<bool>, S: seq<seq<E>>, now: seq<seq<E>>,
                          T: seq<seq<E>>, T': seq<seq<E>>, size: nat, i: nat, ids: seq<nat>, D: seq<seq<E>>)
    requires F.Valid() && Survivors(F, k, M, e, ids, D) && i < k && e[i] && DataUpTo(F, k, M, e, S, now, T, T', size, i)
    ensures |D| == k && |D[i]| == |ids| == k && Aligned(F, D[i], ids, T', |T'|, size) && i !in ids
    ensures DataUpTo(F, k, M, e, S, now, T, DotInto(F, D[i], ids, i, T', size), size, i + 1)
  {
    hide Remains, Survivors, DotInto;
    SurvivorShape(F, k, M, e, ids, D);
    InverseStep(F, k, M, e, S, now, T', size, i, ids, D);
    KeptByDot(F, e, D[i], ids, i, T, T', size);
  }

  lemma DataKept<E(!new)>(F: Field<E>, k: nat, M: seq<seq<E>>, e: seq<bool>, S: seq<seq<E>>, now: seq<seq<E>>,
                          T: seq<seq<E>>, T': seq<seq<E>>, size: nat, i: nat)
    requires i < k <= |e| && !e[i] && DataUpTo(F, k, M, e, S, now, T, T', size, i)
    ensures DataUpTo(F, k, M, e, S, now, T, T', size, i + 1)
  {
    hide Remains;
    if Remains(F, k, M, e, S, now, T, size, 0) {
      SkipStep(k, M, F, e, S, now, T', size, i, i + 1);
    }
  }

  lemma DataEnd<E(!new)>(F: Field<E>, k: nat, M: seq<seq<E>>, e: seq<bool>, S: seq<seq<E>>, now: seq<seq<E>>,
                         T: seq<seq<E>>, T': seq<seq<E>>, size: nat, n: nat)
    requires DataUpTo(F, k, M, e, S, now, T, T', size, n)
    ensures Elems(F, T', k + |M|, size) && OnlyLostChange(e, T, T')
    ensures Remains(F, k, M, e, S, now, T, size, 0) ==> Remains(F, k, M, e, S, now, T', size, n)
  {
  }

  // The data devices before lastdrive, through the decoding matrix.
  method DecodeData<E(==,!new)>(F: Field<E>, k: nat, decodingMatrix: array2<E>, dmIds: seq<nat>, erased: array<bool>,
                                lastdrive: nat, edd0: nat, ptrs: seq<array<E>>, size: nat, ghost M: seq<seq<E>>,
                                ghost S: seq<seq<E>>, ghost now: seq<seq<E>>) returns (edd: nat, ghost i: nat)
    requires F.Valid() && Distinct(ptrs) && AllSized(ptrs, size) && erased.Length == |ptrs| == k + |M|
    requires erased !in ptrs
    requires Elems(F, Contents(ptrs), k + |M|, size) && lastdrive <= k && edd0 == |Where(erased[..], 0, k, true)|
    requires (exists d | 0 <= d < lastdrive :: erased[d]) ==>
      Survivors(F, k, M, erased[..], dmIds, Rows(decodingMatrix))
    modifies ptrs
    ensures erased[..] == old(erased[..]) && Elems(F, Contents(ptrs), k + |M|, size)
    ensures OnlyLostChange(erased[..], old(Contents(ptrs)), Contents(ptrs))
    ensures i <= lastdrive && (edd == 0 || i == lastdrive) && edd == |Where(erased[..], i, k, true)|
    ensures Remains(F, k, M, erased[..], S, now, old(Contents(ptrs)), size, 0) ==>
      Remains(F, k, M, erased[..], S, now, Contents(ptrs), size, i)
  {
    hide Remains, Survivors, DotInto, DataUpTo, Aligned, Where, Rows, Elems, OnlyLostChange;
    ghost var e, D, T := erased[..], Rows(decodingMatrix), Contents(ptrs);
    DataStart(F, k, M, e, S, now, T, size);
    edd := edd0;
    var i' := 0;
    while edd > 0 && i' < lastdrive
      invariant i' <= lastdrive && edd == |Where(e, i', k, true)|
      invariant erased[..] == e && Rows(decodingMatrix) == D
      invariant DataUpTo(F, k, M, e, S, now, T, Contents(ptrs), size, i')
    {
      LostFrom(e, i', k);
      if erased[i'] {
        DataLost(F, k, M, e, S, now, T, Contents(ptrs), size, i', dmIds, D);
        MatrixDotprod(F, Rows(decodingMatrix)[i'], Some(dmIds), i', ptrs, size);
        edd := edd - 1;
      } else {
        DataKept(F, k, M, e, S, now, T, Contents(ptrs), size, i');
      }
      i' := i' + 1;
    }
    i := i';
    DataEnd(F, k, M, e, S, now, T, Contents(ptrs), size, i);
  }

  lemma SurvivorShape<E(!new)>(F: Field<E>, k: nat, M: seq<seq<E>>, e: seq<bool>, ids: seq<nat>, D: seq<seq<E>>)
    requires Survivors(F, k, M, e, ids, D)
    ensures |ids| == k && IsMatrix(F, D, k, k)
  {
  }

  // The devices before device n hold what is expected, when the data devices did at the start.
  ghost predicate CodingUpTo<E(!new)>(F: Field<E>, k: nat, M: seq<seq<E>>, e: seq<bool>, S: seq<seq<E>>,
                                      now: seq<seq<E>>, T: seq<seq<E>>, T': seq<seq<E>>, size: nat, n: nat)
  {
    && IsMatrix(F, M, |M|, k) && |e| == k + |M| && Elems(F, T', k + |M|, size) && OnlyLostChange(e, T, T')
    && (Remains(F, k, M, e, S, now, T, size, k) ==> Remains(F, k, M, e, S, now, T', size, n))
  }

  lemma CodingStart<E(!new)>(F: Field<E>, k: nat, m: nat, M: seq<seq<E>>, e: seq<bool>, S: seq<seq<E>>,
                             now: seq<seq<E>>, T: seq<seq<E>>, size: nat)
    requires IsMatrix(F, M, m, k) && |e| == k + m && Elems(F, T, k + m, size)
    ensures |M| == m && CodingUpTo(F, k, M, e, S, now, T, T, size, k)
  {
  }

  lemma CodingNext<E(!new)>(F: Field<E>, k: nat, M: seq<seq<E>>, e: seq<bool>, S: seq<seq<E>>, now: seq<seq<E>>,
                            T: seq<seq<E>>, T': seq<seq<E>>, size: nat, i: nat)
    requires F.Valid() && i < |M| && CodingUpTo(F, k, M, e, S, now, T, T', size, k + i)
    ensures e[k + i] ==> |M[i]| == k && Aligned(F, M[i], Range(k), T', |T'|, size) && k + i !in Range(k)
    ensures e[k + i] ==> CodingUpTo(F, k, M, e, S, now, T, DotInto(F, M[i], Range(k), k + i, T', size), size, k + i + 1)
    ensures !e[k + i] ==> CodingUpTo(F, k, M, e, S, now, T, T', size, k + i + 1)
  {
    hide Remains, DotInto, Aligned;
    assert IsVec(F, M[i], k);
    if e[k + i] {
      CodingStep(F, k, M, e, S, now, T', size, i);
      KeptByDot(F, e, M[i], Range(k), k + i, T, T', size);
    } else if Remains(F, k, M, e, S, now, T, size, k) {
      SkipStep(k, M, F, e, S, now, T', size, k + i, k + i + 1);
    }
  }

  lemma CodingEnd<E(!new)>(F: Field<E>, k: nat, M: seq<seq<E>>, e: seq<bool>, S: seq<seq<E>>, now: seq<seq<E>>,
                           T: seq<seq<E>>, T': seq<seq<E>>, size: nat)
    requires CodingUpTo(F, k, M, e, S, now, T, T', size, k + |M|)
    ensures Elems(F, T', k + |M|, size) && OnlyLostChange(e, T, T')
    ensures Remains(F, k, M, e, S, now, T, size, k) ==> Remains(F, k, M, e, S, now, T', size, k + |M|)
  {
  }

  lemma DataSources(k: nat)
    ensures Sources(k, None) == Range(k)
  {
  }

  // The lost coding devices.
  method DecodeCoding<E(==,!new)>(F: Field<E>, k: nat, m: nat, matrix: array2<E>, erased: array<bool>,
                                  ptrs: seq<array<E>>, size: nat, ghost S: seq<seq<E>>, ghost now: seq<seq<E>>)
    requires F.Valid() && Distinct(ptrs) && AllSized(ptrs, size) && erased.Length == |ptrs| == k + m && erased !in ptrs
    requires IsMatrix(F, Rows(matrix), m, k) && Elems(F, Contents(ptrs), k + m, size)
    modifies ptrs
    ensures Rows(matrix) == old(Rows(matrix)) && erased[..] == old(erased[..]) && Elems(F, Contents(ptrs), k + m, size)
    ensures OnlyLostChange(erased[..], old(Contents(ptrs)), Contents(ptrs))
    ensures Remains(F, k, Rows(matrix), erased[..], S, now, old(Contents(ptrs)), size, k) ==>
      Remains(F, k, Rows(matrix), erased[..], S, now, Contents(ptrs), size, k + m)
  {
    hide Remains, DotInto, CodingUpTo, Rows, IsMatrix, Elems, Aligned, Range, Sources, OnlyLostChange;
    ghost var M, e, T := Rows(matrix), erased[..], Contents(ptrs);
    CodingStart(F, k, m, M, e, S, now, T, size);
    for i := 0 to m
      invariant Rows(matrix) == M && erased[..] == e && CodingUpTo(F, k, M, e, S, now, T, Contents(ptrs), size, k + i)
    {
      CodingNext(F, k, M, e, S, now, T, Contents(ptrs), size, i);
      DataSources(k);
      if erased[k + i] {
        MatrixDotprod(F, Rows(matrix)[i], None, k + i, ptrs, size);
      }
    }
    CodingEnd(F, k, M, e, S, now, T, Contents(ptrs), size);
  }

  // The decoding matrix that the flags e ask for can be made.
  ghost predicate MatrixDecodable<E(!new)>(F: Field<E>, k: nat, M: seq<seq<E>>, e: seq<bool>)
    requires F.Valid() && IsMatrix(F, M, |M|, k) && |e| == k + |M| && |Where(e, 0, |e|, false)| >= k
  {
    SurvivorRowsAreMatrix(F, k, M, FirstSurvivors(e, k));
    Nonsingular(F, DeviceRows(F, k, M, FirstSurvivors(e, k)), k)
  }

  lemma SurvivorRowsAreMatrix<E(!new)>(F: Field<E>, k: nat, M: seq<seq<E>>, ids: seq<nat>)
    requires F.Valid() && IsMatrix(F, M, |M|, k) && forall i | 0 <= i < |ids| :: ids[i] < k + |M|
    ensures IsMatrix(F, DeviceRows(F, k, M, ids), |ids|, k)
  {
    forall i | 0 <= i < |ids|
      ensures IsVec(F, DeviceRows(F, k, M, ids)[i], k)
    {
      if ids[i] >= k {
        assert IsVec(F, M[ids[i] - k], k);
      }
    }
  }

  lemma EnoughSurvive(erased: seq<bool>, erasures: seq<nat>, k: nat, m: nat)
    requires Flags(erased, erasures) && |erased| == k + m && |Elements(erasures)| <= m
    ensures |Where(erased, 0, k + m, false)| >= k
  {
    LostCount(erased, erasures);
    WhereCounts(erased, 0, k + m);
  }

  /** S is what the devices held when all was well: a codeword that the survivors still hold. */
  ghost predicate Intact<E(!new)>(F: Field<E>, k: nat, M: seq<seq<E>>, e: seq<bool>, S: seq<seq<E>>, now: seq<seq<E>>,
                                  size: nat)
  {
    && MatrixCodeword(F, k, M, S, size) && |e| == k + |M| == |now|
    && forall d | 0 <= d < |e| && !e[d] :: now[d] == S[d]
  }

  // The lost coding devices that are never written hold zeros.
  ghost predicate StaleZero<E(!new)>(F: Field<E>, k: nat, M: seq<seq<E>>, e: seq<bool>, now: seq<seq<E>>, size: nat)
    requires IsMatrix(F, M, |M|, k) && |e| == k + |M| == |now|
  {
    forall i | 0 <= i < |M| && e[k + i] && ZeroRow(F, M[i], k) :: now[k + i] == ZeroVec(F, size)
  }

  lemma ZeroCoded<E(!new)>(F: Field<E>, k: nat, M: seq<seq<E>>, S: seq<seq<E>>, size: nat, i: nat)
    requires F.Valid() && MatrixCodeword(F, k, M, S, size) && i < |M| && ZeroRow(F, M[i], k)
    ensures S[k + i] == ZeroVec(F, size)
  {
    assert CodedAt(F, k, M[i], S, k + i, size) && IsVec(F, M[i], k) && IsVec(F, S[k + i], size);
    var held := S[k + i];
    forall b | 0 <= b < size
      ensures held[b] == F.zero
    {
      SliceElems(F, Range(k), S, size, b);
      DotZero(F, M[i], Slice(S, Range(k), b), k);
    }
  }

  /** What decoding leaves is the codeword if and only if the lost devices it never writes held zeros. */
  lemma ExpectedIsRight<E(!new)>(F: Field<E>, k: nat, M: seq<seq<E>>, e: seq<bool>, S: seq<seq<E>>, now: seq<seq<E>>,
                                 size: nat)
    requires F.Valid() && Intact(F, k, M, e, S, now, size)
    ensures IsMatrix(F, M, |M|, k) && |S| == k + |M|
    ensures Expected(F, k, M, e, S, now) == S <==> StaleZero(F, k, M, e, now, size)
    ensures Remains(F, k, M, e, S, now, now, size, 0)
  {
    hide MatrixCodeword, ZeroRow;
    CodewordShape(F, k, M, S, size);
    var X := Expected(F, k, M, e, S, now);
    forall i | 0 <= i < |M| && e[k + i] && ZeroRow(F, M[i], k)
      ensures X[k + i] == now[k + i] && S[k + i] == ZeroVec(F, size)
    {
      ZeroCoded(F, k, M, S, size, i);
    }
    if StaleZero(F, k, M, e, now, size) {
      forall d | 0 <= d < |S|
        ensures X[d] == S[d]
      {
        if Unwritten(F, k, M, e, d) {
          assert M[d - k] == M[(d - k)] && e[k + (d - k)];
          assert X[k + (d - k)] == now[k + (d - k)] == ZeroVec(F, size);
        }
      }
    }
  }

  lemma WrittenIsStaleZero<E(!new)>(F: Field<E>, k: nat, M: seq<seq<E>>, e: seq<bool>, now: seq<seq<E>>, size: nat)
    requires WrittenRows(F, k, M, e) && |now| == |e|
    ensures StaleZero(F, k, M, e, now, size)
  {
  }

  /** A coding row of zeros, its device lost and holding something: decoding returns 0 and leaves it so. */
  lemma StaleExample<E(!new)>(F: Field<E>, v: E)
    requires F.Valid() && F.elem(v) && v != F.zero
    ensures var M, e, S, now := [[F.zero]], [false, true], [[v], [F.zero]], [[v], [v]];
      && Intact(F, 1, M, e, S, now, 1) && IsMatrix(F, M, 1, 1)
      && Expected(F, 1, M, e, S, now) == now != S && !WrittenRows(F, 1, M, e)
  {
    var M, e, S, now := [[F.zero]], [false, true], [[v], [F.zero]], [[v], [v]];
    assert Slice(S, Range(1), 0) == [v];
    DotZero(F, M[0], [v], 1);
    assert CodedAt(F, 1, M[0], S, 1, 1);
    assert ZeroRow(F, M[0], 1) && Unwritten(F, 1, M, e, 1);
    var X := Expected(F, 1, M, e, S, now);
    assert X[0] == now[0] && X[1] == now[1];
    assert S[1][0] != now[1][0];
  }

  /** jerasure_matrix_decode. It returns -1 exactly for a wrong w, more than m lost devices or a singular matrix,
      and then no buffer has changed. A device that is not in the list is never changed. When it returns 0, every
      buffer holds its part of the codeword again, if and only if the lost coding devices with a row of zeros, which
      are not written, held zeros. */
  method MatrixDecode<E(==,!new)>(F: Field<E>, k: nat, m: nat, w: int, matrix: array2<E>, rowKOnes: bool,
                                  erasures: seq<nat>, ptrs: seq<array<E>>, size: nat, ghost S: seq<seq<E>>)
    returns (r: int)
    requires F.Valid() && Distinct(ptrs) && AllSized(ptrs, size) && |ptrs| == k + m
    requires IsMatrix(F, Rows(matrix), m, k) && Elems(F, Contents(ptrs), k + m, size)
    requires forall i | 0 <= i < |erasures| :: erasures[i] < k + m
    requires rowKOnes ==> m > 0 && AllOnes(F, Rows(matrix)[0])
    modifies ptrs
    ensures r == 0 || r == -1
    ensures r == -1 ==> Contents(ptrs) == old(Contents(ptrs))
    ensures forall d | 0 <= d < k + m && d !in erasures :: ptrs[d][..] == old(ptrs[d][..])
    ensures w != 8 && w != 16 && w != 32 ==> r == -1
    ensures |Elements(erasures)| > m ==> r == -1
    ensures (w == 8 || w == 16 || w == 32) && |Elements(erasures)| <= m ==>
      var e := FlagsOf(k + m, erasures);
      |e| == k + m && |Where(e, 0, k + m, false)| >= k &&
      (r == 0 <==> (NeedsInverse(k, e, rowKOnes) ==> MatrixDecodable(F, k, old(Rows(matrix)), e)))
    ensures r == 0 && Intact(F, k, old(Rows(matrix)), FlagsOf(k + m, erasures), S, old(Contents(ptrs)), size) ==>
      && |S| == k + m
      && Contents(ptrs) == Expected(F, k, old(Rows(matrix)), FlagsOf(k + m, erasures), S, old(Contents(ptrs)))
      && (Contents(ptrs) == S <==>
          StaleZero(F, k, old(Rows(matrix)), FlagsOf(k + m, erasures), old(Contents(ptrs)), size))
  {
    hide Intact, Expected, StaleZero, Elements, Where, FlagsOf, Elems, MatrixDecodable, NeedsInverse, OnlyLostChange;
    if w != 8 && w != 16 && w != 32 {
      return -1;
    }
    var erased := ErasuresToErased(k, m, erasures);
    if erased == null {
      return -1;
    }
    FlagsUnique(erased[..], erasures);
    EnoughSurvive(erased[..], erasures, k, m);
    ghost var e, now := erased[..], Contents(ptrs);
    r := DecodeFlagged(F, k, m, matrix, erased, rowKOnes, ptrs, size, S);
    OthersKept(e, erasures, now, Contents(ptrs));
  }

  lemma OthersKept<E(!new)>(e: seq<bool>, erasures: seq<nat>, S: seq<seq<E>>, T: seq<seq<E>>)
    requires Flags(e, erasures) && OnlyLostChange(e, S, T)
    ensures |S| == |T| == |e| && forall d | 0 <= d < |e| && d !in erasures :: T[d] == S[d]
  {
  }

  // The rest, once the lost devices are flagged.
  method DecodeFlagged<E(==,!new)>(F: Field<E>, k: nat, m: nat, matrix: array2<E>, erased: array<bool>, rowKOnes: bool,
                                   ptrs: seq<array<E>>, size: nat, ghost S: seq<seq<E>>) returns (r: int)
    requires F.Valid() && Distinct(ptrs) && AllSized(ptrs, size) && |ptrs| == k + m == erased.Length && erased !in ptrs
    requires IsMatrix(F, Rows(matrix), m, k) && Elems(F, Contents(ptrs), k + m, size)
    requires rowKOnes ==> m > 0 && AllOnes(F, Rows(matrix)[0])
    requires |Where(erased[..], 0, k + m, false)| >= k
    modifies ptrs
    ensures r == 0 || r == -1
    ensures r == -1 ==> Contents(ptrs) == old(Contents(ptrs))
    ensures OnlyLostChange(old(erased[..]), old(Contents(ptrs)), Contents(ptrs))
    ensures r == 0 <==>
      (NeedsInverse(k, old(erased[..]), rowKOnes) ==> MatrixDecodable(F, k, old(Rows(matrix)), old(erased[..])))
    ensures r == 0 && Intact(F, k, old(Rows(matrix)), old(erased[..]), S, old(Contents(ptrs)), size) ==>
      && |S| == k + m
      && Contents(ptrs) == Expected(F, k, old(Rows(matrix)), old(erased[..]), S, old(Contents(ptrs)))
      && (Contents(ptrs) == S <==> StaleZero(F, k, old(Rows(matrix)), old(erased[..]), old(Contents(ptrs)), size))
  {
    hide Remains, Intact, Expected, StaleZero, Survivors, Where, Inverses, Nonsingular, DeviceRows, FirstSurvivors,
         Elems;
    ghost var M, e, now := Rows(matrix), erased[..], Contents(ptrs);
    var edd, lastdrive := CountLostData(k, erased);
    if !rowKOnes || erased[k] {
      lastdrive := k;
    }
    var decodingMatrix := new E[0, 0]((i, j) => F.zero);
    var dmIds := [];
    if edd > 1 || (edd > 0 && (!rowKOnes || erased[k])) {
      var made;
      made, decodingMatrix, dmIds := MakeDecodingMatrix(F, k, m, matrix, erased);
      if made < 0 {
        return -1;
      }
      MadeSurvivors(F, k, M, e, dmIds, Rows(decodingMatrix));
    }
    r := 0;
    DecodeLost(F, k, m, matrix, erased, lastdrive, edd, decodingMatrix, dmIds, rowKOnes, ptrs, size, S, now);
    if Intact(F, k, M, e, S, now, size) {
      ExpectedIsRight(F, k, M, e, S, now, size);
      AllRestored(F, k, M, e, S, now, Contents(ptrs), size);
    }
  }

  lemma AllRestored<E(!new)>(F: Field<E>, k: nat, M: seq<seq<E>>, e: seq<bool>, S: seq<seq<E>>, now: seq<seq<E>>,
                             T: seq<seq<E>>, size: nat)
    requires Remains(F, k, M, e, S, now, T, size, k + |M|)
    ensures IsMatrix(F, M, |M|, k) && |S| == |now| && T == Expected(F, k, M, e, S, now)
  {
  }

  lemma MadeSurvivors<E(!new)>(F: Field<E>, k: nat, M: seq<seq<E>>, e: seq<bool>, ids: seq<nat>, D: seq<seq<E>>)
    requires IsMatrix(F, M, |M|, k) && |e| == k + |M| && |Where(e, 0, |e|, false)| >= k && ids == FirstSurvivors(e, k)
    requires IsMatrix(F, DeviceRows(F, k, M, ids), k, k) && IsMatrix(F, D, k, k)
    requires Inverses(F, DeviceRows(F, k, M, ids), D, k)
    ensures Survivors(F, k, M, e, ids, D)
  {
  }

  method DecodeLost<E(==,!new)>(F: Field<E>, k: nat, m: nat, matrix: array2<E>, erased: array<bool>, lastdrive: nat,
                                edd0: nat, decodingMatrix: array2<E>, dmIds: seq<nat>, rowKOnes: bool,
                                ptrs: seq<array<E>>, size: nat, ghost S: seq<seq<E>>, ghost now: seq<seq<E>>)
    requires F.Valid() && Distinct(ptrs) && AllSized(ptrs, size) && erased.Length == |ptrs| == k + m && erased !in ptrs
    requires IsMatrix(F, Rows(matrix), m, k) && Elems(F, Contents(ptrs), k + m, size)
    requires rowKOnes ==> m > 0 && AllOnes(F, Rows(matrix)[0])
    requires edd0 == |Where(erased[..], 0, k, true)| && lastdrive <= k
    requires lastdrive < k ==> rowKOnes && !erased[k] && erased[lastdrive] && forall d | lastdrive < d < k :: !erased[d]
    requires NeedsInverse(k, erased[..], rowKOnes) ==>
      Survivors(F, k, Rows(matrix), erased[..], dmIds, Rows(decodingMatrix))
    requires lastdrive == k && rowKOnes && !erased[k] ==> edd0 == 0
    modifies ptrs
    ensures Rows(matrix) == old(Rows(matrix)) && erased[..] == old(erased[..])
    ensures OnlyLostChange(erased[..], old(Contents(ptrs)), Contents(ptrs))
    ensures Remains(F, k, Rows(matrix), erased[..], S, now, old(Contents(ptrs)), size, 0) ==>
      Remains(F, k, Rows(matrix), erased[..], S, now, Contents(ptrs), size, k + m)
  {
    hide Remains, Survivors, Where, DotInto, Elems, OnlyLostChange;
    ghost var M, e, T := Rows(matrix), erased[..], Contents(ptrs);
    InverseAtHand(k, e, rowKOnes, lastdrive);
    var edd; ghost var i;
    edd, i := DecodeData(F, k, decodingMatrix, dmIds, erased, lastdrive, edd0, ptrs, size, M, S, now);
    ghost var T1 := Contents(ptrs);
    if edd > 0 {
      assert lastdrive < k by { StillLost(e, i, k); }
      ParityStep(F, k, M, e, S, now, T1, size, lastdrive);
      KeptByDot(F, e, M[0], SkipIds(k, lastdrive), lastdrive, T, T1, size);
      MatrixDotprod(F, Rows(matrix)[0], Some(SkipIds(k, lastdrive)), lastdrive, ptrs, size);
    } else {
      NoneLost(e, i, k);
      if Remains(F, k, M, e, S, now, T, size, 0) {
        SkipStep(k, M, F, e, S, now, T1, size, i, k);
      }
    }
    ghost var T2 := Contents(ptrs);
    DecodeCoding(F, k, m, matrix, erased, ptrs, size, S, now);
    KeptTwice(e, T, T2, Contents(ptrs));
  }

  lemma StillLost(e: seq<bool>, i: nat, k: nat)
    requires i <= k <= |e| && |Where(e, i, k, true)| > 0
    ensures i < k
  {
  }

  // A lost device before lastdrive means the decoding matrix was made.
  lemma InverseAtHand(k: nat, e: seq<bool>, rowKOnes: bool, lastdrive: nat)
    requires k <= |e| && (rowKOnes ==> k < |e|) && lastdrive <= k
    requires lastdrive < k ==> e[lastdrive]
    requires lastdrive == k && rowKOnes && !e[k] ==> |Where(e, 0, k, true)| == 0
    ensures (exists d | 0 <= d < lastdrive :: e[d]) ==> NeedsInverse(k, e, rowKOnes)
  {
    if d :| 0 <= d < lastdrive && e[d] {
      if lastdrive < k {
        EarlierLost(e, k, d, lastdrive);
      } else {
        WhereAppend(e, 0, d, k, true);
        FirstWhere(e, d, k, true);
      }
    }
  }
}

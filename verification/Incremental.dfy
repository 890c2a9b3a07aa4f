/** Incremental encoding (jerasure_incr.c): one data disk at a time is folded into the coding buffers, the first
    one with init false. */
module Incremental {
  import opened Fields
  import opened LinearAlgebra
  import opened RowReduction
  import opened Elimination
  import opened Buffers
  import opened Erasures
  import opened LogTables
  import opened Options
  import opened SourceDevices
  import opened MatrixEncoding

  // ---- One disk.

  /** What folding position b of disk source into a coding buffer gives: a zero coefficient leaves the buffer
      alone even when it has not been initialised. */
  function FoldAt<E(==,!new)>(F: Field<E>, c: E, source: E, old': E, init: bool): E {
    if c == F.zero then old' else if init then F.add(old', F.mul(c, source)) else F.mul(c, source)
  }

  ghost function FoldRow<E(!new)>(F: Field<E>, row: seq<E>, S: seq<seq<E>>, dest: nat, disk: nat, init: bool,
                                  size: nat): (v: seq<E>)
    requires Elems(F, S, |S|, size) && dest < |S| && disk < |S| && disk < |row|
    ensures |v| == size
  {
    seq(size, b requires 0 <= b < size => FoldAt(F, row[disk], S[disk][b], S[dest][b], init))
  }

  lemma FoldRowElems<E(!new)>(F: Field<E>, row: seq<E>, S: seq<seq<E>>, dest: nat, disk: nat, init: bool, size: nat)
    requires F.Valid() && Elems(F, S, |S|, size) && dest < |S| && disk < |S| && disk < |row| && F.elem(row[disk])
    ensures IsVec(F, FoldRow(F, row, S, dest, disk, init, size), size)
  {
    forall b | 0 <= b < size
      ensures F.elem(FoldRow(F, row, S, dest, disk, init, size)[b])
    {
      assert IsVec(F, S[disk], size) && IsVec(F, S[dest], size);
      F.Closed(row[disk], S[disk][b]);
      F.Closed(S[dest][b], F.mul(row[disk], S[disk][b]));
    }
  }

  /** jerasure_matrix_dotprod of the incremental library. With source ids it is the product of the full library. */
  method IncrementalDotprod<E(==,!new)>(F: Field<E>, row: seq<E>, srcIds: Option<seq<nat>>, dest: nat,
                                        ptrs: seq<array<E>>, size: nat, diskNo: nat, init: bool)
    requires F.Valid() && Distinct(ptrs) && AllSized(ptrs, size) && dest < |ptrs|
    requires Aligned(F, row, Sources(|row|, srcIds), Contents(ptrs), |ptrs|, size) && dest !in Sources(|row|, srcIds)
    requires srcIds.None? ==> diskNo < |row| <= |ptrs|
    modifies ptrs[dest]
    ensures srcIds.Some? ==> Contents(ptrs) == DotInto(F, row, Sources(|row|, srcIds), dest, old(Contents(ptrs)), size)
    ensures srcIds.None? ==>
      Contents(ptrs) == old(Contents(ptrs))[dest := FoldRow(F, row, old(Contents(ptrs)), dest, diskNo, init, size)]
  {
    if srcIds.Some? {
      MatrixDotprod(F, row, srcIds, dest, ptrs, size);
    } else {
      ghost var S := Contents(ptrs);
      assert Sources(|row|, srcIds)[diskNo] == diskNo;
      FoldIn(F, row, dest, ptrs, size, diskNo, init);
    }
  }

  method FoldIn<E(==,!new)>(F: Field<E>, row: seq<E>, dest: nat, ptrs: seq<array<E>>, size: nat, diskNo: nat,
                            init: bool)
    requires F.Valid() && Distinct(ptrs) && AllSized(ptrs, size) && dest < |ptrs| && diskNo < |ptrs| && diskNo < |row|
    requires dest != diskNo
    requires Elems(F, Contents(ptrs), |ptrs|, size) && IsVec(F, row, |row|)
    modifies ptrs[dest]
    ensures Contents(ptrs) ==
      old(Contents(ptrs))[dest := FoldRow(F, row, old(Contents(ptrs)), dest, diskNo, init, size)]
  {
    ghost var S := Contents(ptrs);
    ghost var v := FoldRow(F, row, S, dest, diskNo, init, size);
    assert ptrs[diskNo][..] == S[diskNo] && ptrs[dest][..] == S[dest];
    forall b | 0 <= b < size
      ensures F.mul(F.one, S[diskNo][b]) == S[diskNo][b]
      ensures F.add(S[diskNo][b], S[dest][b]) == F.add(S[dest][b], S[diskNo][b])
    {
      assert IsVec(F, S[diskNo], size) && IsVec(F, S[dest], size);
      F.MulOne(S[diskNo][b]);
      assert F.AddLaws(S[diskNo][b], S[dest][b], S[dest][b]);
    }
    if row[diskNo] == F.one {
      CopyRegion(F, ptrs[diskNo], ptrs[dest], init);
    }
    if row[diskNo] != F.zero && row[diskNo] != F.one {
      RegionMultiply(F, ptrs[diskNo], row[diskNo], ptrs[dest], init);
    }
    assert ptrs[dest][..] == v;
    Written(ptrs, dest, S);
  }

  // ---- One disk into every coding buffer.

  ghost predicate Encodable<E(!new)>(F: Field<E>, k: nat, M: seq<seq<E>>, S: seq<seq<E>>, size: nat) {
    IsMatrix(F, M, |M|, k) && Elems(F, S, k + |M|, size)
  }

  ghost function Fold<E(!new)>(F: Field<E>, k: nat, M: seq<seq<E>>, S: seq<seq<E>>, disk: nat, init: bool,
                               size: nat): (T: seq<seq<E>>)
    requires Encodable(F, k, M, S, size) && disk < k
    ensures |T| == |S|
  {
    seq(|S|, d requires 0 <= d < |S| => if d < k then S[d] else FoldRow(F, M[d - k], S, d, disk, init, size))
  }

  lemma FoldEncodable<E(!new)>(F: Field<E>, k: nat, M: seq<seq<E>>, S: seq<seq<E>>, disk: nat, init: bool, size: nat)
    requires F.Valid() && Encodable(F, k, M, S, size) && disk < k
    ensures Encodable(F, k, M, Fold(F, k, M, S, disk, init, size), size)
  {
    var T := Fold(F, k, M, S, disk, init, size);
    forall d | 0 <= d < |S|
      ensures IsVec(F, T[d], size)
    {
      if d >= k {
        assert IsVec(F, M[d - k], k);
        FoldRowElems(F, M[d - k], S, d, disk, init, size);
      }
    }
  }

  // The coding buffers before row i are done.
  ghost predicate FoldedTo<E(!new)>(F: Field<E>, k: nat, M: seq<seq<E>>, S: seq<seq<E>>, T: seq<seq<E>>, disk: nat,
                                    init: bool, size: nat, i: nat)
  {
    && Encodable(F, k, M, S, size) && Encodable(F, k, M, T, size) && disk < k
    && forall d | 0 <= d < |S| :: T[d] == if d < k + i then Fold(F, k, M, S, disk, init, size)[d] else S[d]
  }

  lemma FoldNext<E(!new)>(F: Field<E>, k: nat, M: seq<seq<E>>, S: seq<seq<E>>, T: seq<seq<E>>, disk: nat, init: bool,
                          size: nat, i: nat)
    requires F.Valid() && FoldedTo(F, k, M, S, T, disk, init, size, i) && i < |M|
    ensures |M[i]| == k && Aligned(F, M[i], Sources(|M[i]|, None), T, |T|, size) && k + i !in Sources(|M[i]|, None)
    ensures FoldedTo(F, k, M, S, T[k + i := FoldRow(F, M[i], T, k + i, disk, init, size)], disk, init, size, i + 1)
  {
    assert IsVec(F, M[i], k);
    FoldRowElems(F, M[i], T, k + i, disk, init, size);
    assert T[disk] == S[disk] && T[k + i] == S[k + i];
    assert FoldRow(F, M[i], T, k + i, disk, init, size) == FoldRow(F, M[i], S, k + i, disk, init, size);
  }

  /** jerasure_matrix_encode of the incremental library, for w of 8, 16 or 32. */
  method IncrementalEncode<E(==,!new)>(F: Field<E>, k: nat, m: nat, matrix: array2<E>, ptrs: seq<array<E>>, size: nat,
                                       diskNo: nat, init: bool)
    requires F.Valid() && Distinct(ptrs) && AllSized(ptrs, size) && |ptrs| == k + m && diskNo < k
    requires matrix.Length0 == m && Encodable(F, k, Rows(matrix), Contents(ptrs), size)
    modifies ptrs
    ensures Contents(ptrs) == Fold(F, k, Rows(matrix), old(Contents(ptrs)), diskNo, init, size)
  {
    hide FoldRow, Sources, Fold, Encodable;
    ghost var M, S := Rows(matrix), Contents(ptrs);
    FoldStart(F, k, M, S, diskNo, init, size);
    for i := 0 to m
      invariant Rows(matrix) == M && FoldedTo(F, k, M, S, Contents(ptrs), diskNo, init, size, i)
    {
      FoldNext(F, k, M, S, Contents(ptrs), diskNo, init, size, i);
      IncrementalDotprod(F, Rows(matrix)[i], None, k + i, ptrs, size, diskNo, init);
    }
    assert |Contents(ptrs)| == k + m;
  }

  lemma FoldStart<E(!new)>(F: Field<E>, k: nat, M: seq<seq<E>>, S: seq<seq<E>>, disk: nat, init: bool, size: nat)
    requires Encodable(F, k, M, S, size) && disk < k
    ensures FoldedTo(F, k, M, S, S, disk, init, size, 0)
    ensures |Fold(F, k, M, S, disk, init, size)| == |S|
  {
  }

  // ---- All disks, in any order.

  ghost predicate DiskOrder(order: seq<nat>, k: nat) {
    NoRepeats(order) && forall t | 0 <= t < |order| :: order[t] < k
  }

  /** The buffers after the first n disks of order, only the first of which has init false. */
  ghost function FoldRun<E(!new)>(F: Field<E>, k: nat, M: seq<seq<E>>, S: seq<seq<E>>, order: seq<nat>, n: nat,
                                  size: nat): (T: seq<seq<E>>)
    requires F.Valid() && Encodable(F, k, M, S, size) && DiskOrder(order, k) && n <= |order|
    ensures Encodable(F, k, M, T, size)
  {
    if n == 0 then S
    else
      var T := FoldRun(F, k, M, S, order, n - 1, size);
      FoldEncodable(F, k, M, T, order[n - 1], n > 1, size);
      Fold(F, k, M, T, order[n - 1], n > 1, size)
  }

  // The data at one position, with zeros for the disks not folded yet.
  ghost function Partial<E(!new)>(F: Field<E>, x: seq<E>, order: seq<nat>, n: nat): (y: seq<E>)
    requires n <= |order|
    ensures |y| == |x|
  {
    seq(|x|, d requires 0 <= d < |x| => if d in order[..n] then x[d] else F.zero)
  }

  lemma PartialNext<E(!new)>(F: Field<E>, row: seq<E>, x: seq<E>, order: seq<nat>, n: nat)
    requires F.Valid() && IsVec(F, row, |row|) && IsVec(F, x, |row|) && DiskOrder(order, |row|) && 0 < n <= |order|
    ensures IsVec(F, Partial(F, x, order, n - 1), |row|)
    ensures Dot(F, row, Partial(F, x, order, n)) ==
      F.add(Dot(F, row, Partial(F, x, order, n - 1)), F.mul(row[order[n - 1]], x[order[n - 1]]))
  {
    var y, d := Partial(F, x, order, n - 1), order[n - 1];
    assert order[..n] == order[..n - 1] + [d];
    assert d !in order[..n - 1];
    assert Partial(F, x, order, n) == y[d := x[d]];
    DotUpdate(F, row, y, |row|, d, x[d]);
  }

  lemma PartialStart<E(!new)>(F: Field<E>, row: seq<E>, x: seq<E>, order: seq<nat>)
    requires F.Valid() && IsVec(F, row, |row|) && IsVec(F, x, |row|)
    ensures Dot(F, row, Partial(F, x, order, 0)) == F.zero
  {
    DotZero(F, row, Partial(F, x, order, 0), |row|);
  }

  // What is left of the buffer's contents before the run: everything, when the first coefficient is zero.
  ghost function Stale<E(!new)>(F: Field<E>, c: E, old': E): E {
    if c == F.zero then old' else F.zero
  }

  /** After every step, each coding buffer is the product of its row with the folded disks, plus what was left
      of its old contents. */
  lemma {:induction false} FoldRunAt<E(!new)>(F: Field<E>, k: nat, M: seq<seq<E>>, S: seq<seq<E>>, order: seq<nat>,
                                              n: nat, size: nat, i: nat, b: nat)
    requires F.Valid() && Encodable(F, k, M, S, size) && DiskOrder(order, k) && 0 < n <= |order| && i < |M| && b < size
    ensures |M[i]| == k
    ensures FoldRun(F, k, M, S, order, n, size)[k + i][b] ==
      F.add(Stale(F, M[i][order[0]], S[k + i][b]), Dot(F, M[i], Partial(F, Slice(S, Range(k), b), order, n)))
  {
    hide Partial, Dot, Range, Slice, FoldRow, Encodable;
    RunShape(F, k, M, S, size, i, b);
    var x, T := Slice(S, Range(k), b), FoldRun(F, k, M, S, order, n - 1, size);
    var c, old', p := M[i][order[n - 1]], S[k + i][b], Dot(F, M[i], Partial(F, x, order, n - 1));
    PartialNext(F, M[i], x, order, n);
    PartialElem(F, M[i], x, order, n - 1);
    FoldRunData(F, k, M, S, order, n - 1, size);
    FoldCell(F, k, M, T, order[n - 1], n > 1, size, i, b);
    SliceCell(k, S, order[n - 1], b);
    var v := x[order[n - 1]];
    F.Closed(c, v);
    F.MulZero(v);
    F.AddZero(p);
    F.AddZero(F.mul(c, v));
    F.AddZero(old');
    if n == 1 {
      PartialStart(F, M[i], x, order);
    } else {
      FoldRunAt(F, k, M, S, order, n - 1, size, i, b);
      var s := Stale(F, M[i][order[0]], old');
      assert F.AddLaws(s, p, F.mul(c, v));
    }
  }

  lemma RunShape<E(!new)>(F: Field<E>, k: nat, M: seq<seq<E>>, S: seq<seq<E>>, size: nat, i: nat, b: nat)
    requires F.Valid() && Encodable(F, k, M, S, size) && i < |M| && b < size
    ensures |S| == k + |M| && IsVec(F, M[i], k) && IsVec(F, Slice(S, Range(k), b), k) && |S[k + i]| == size
    ensures F.elem(S[k + i][b])
    ensures forall d | 0 <= d < |S| :: |S[d]| == size
  {
    SliceElems(F, Range(k), S, size, b);
    assert IsVec(F, S[k + i], size);
  }

  lemma PartialElem<E(!new)>(F: Field<E>, row: seq<E>, x: seq<E>, order: seq<nat>, n: nat)
    requires F.Valid() && IsVec(F, row, |row|) && IsVec(F, x, |row|) && n <= |order|
    ensures F.elem(Dot(F, row, Partial(F, x, order, n)))
  {
    DotElem(F, row, Partial(F, x, order, n), |row|);
  }

  lemma SliceCell<E(!new)>(k: nat, S: seq<seq<E>>, d: nat, b: nat)
    requires d < k <= |S| && forall d | 0 <= d < |S| :: b < |S[d]|
    ensures Slice(S, Range(k), b)[d] == S[d][b]
  {
  }

  lemma FoldCell<E(!new)>(F: Field<E>, k: nat, M: seq<seq<E>>, T: seq<seq<E>>, disk: nat, init: bool, size: nat, i: nat,
                          b: nat)
    requires Encodable(F, k, M, T, size) && disk < k && i < |M| && b < size
    ensures |M[i]| == k && |T| == k + |M| && |T[disk]| == |T[k + i]| == size
    ensures |Fold(F, k, M, T, disk, init, size)[k + i]| == size
    ensures Fold(F, k, M, T, disk, init, size)[k + i][b] == FoldAt(F, M[i][disk], T[disk][b], T[k + i][b], init)
  {
    assert IsVec(F, M[i], k) && IsVec(F, T[disk], size) && IsVec(F, T[k + i], size);
    assert M[(k + i) - k] == M[i];
    assert Fold(F, k, M, T, disk, init, size)[k + i] == FoldRow(F, M[i], T, k + i, disk, init, size);
  }

  // The data does not change.
  lemma {:induction false} FoldRunData<E(!new)>(F: Field<E>, k: nat, M: seq<seq<E>>, S: seq<seq<E>>, order: seq<nat>,
                                                n: nat, size: nat)
    requires F.Valid() && Encodable(F, k, M, S, size) && DiskOrder(order, k) && n <= |order|
    ensures |FoldRun(F, k, M, S, order, n, size)| == |S| == k + |M|
    ensures forall d | 0 <= d < k :: FoldRun(F, k, M, S, order, n, size)[d] == S[d]
  {
    if n > 0 {
      FoldRunData(F, k, M, S, order, n - 1, size);
    }
  }

  // An order of k disks folds all of them.
  lemma AllFolded<E(!new)>(F: Field<E>, x: seq<E>, order: seq<nat>)
    requires DiskOrder(order, |x|) && |order| == |x|
    ensures Partial(F, x, order, |x|) == x
  {
    var s := seq(|x|, t requires 0 <= t < |x| => order[t] + 1);
    assert order[..|x|] == order;
    forall d | 0 <= d < |x|
      ensures d in order
    {
      AllVisited(s, d + 1);
    }
  }

  /** Folding all disks gives the product of the row with the data, for a coding buffer whose first coefficient is
      not zero or which held only zeros; and for no other. */
  lemma FoldedIsProduct<E(!new)>(F: Field<E>, k: nat, M: seq<seq<E>>, S: seq<seq<E>>, order: seq<nat>, size: nat,
                                 i: nat)
    requires F.Valid() && Encodable(F, k, M, S, size) && DiskOrder(order, k) && 0 < k == |order| && i < |M|
    ensures |M[i]| == k && |S[k + i]| == size && Elems(F, FoldRun(F, k, M, S, order, k, size), k + |M|, size)
    ensures CodedAt(F, k, M[i], FoldRun(F, k, M, S, order, k, size), k + i, size) <==>
      (M[i][order[0]] != F.zero || S[k + i] == ZeroVec(F, size))
  {
    hide FoldRun, Dot, Slice, Range, Partial, Stale;
    var T := FoldRun(F, k, M, S, order, k, size);
    assert IsVec(F, M[i], k) && IsVec(F, S[k + i], size);
    FoldRunData(F, k, M, S, order, k, size);
    var c, old' := M[i][order[0]], S[k + i];
    if CodedAt(F, k, M[i], T, k + i, size) {
      forall b | 0 <= b < size
        ensures c != F.zero || old'[b] == F.zero
      {
        CellIsFull(F, k, M, S, order, size, i, b);
        StaleIs(F, c, S[k + i][b]);
        assert T[k + i][b] == T[k + i][b];
      }
    } else if c != F.zero || S[k + i] == ZeroVec(F, size) {
      forall b | 0 <= b < size
        ensures |Slice(T, Range(k), b)| == k && T[k + i][b] == Dot(F, M[i], Slice(T, Range(k), b))
      {
        CellIsFull(F, k, M, S, order, size, i, b);
        StaleIs(F, c, S[k + i][b]);
      }
    }
  }

  lemma StaleIs<E(!new)>(F: Field<E>, c: E, old': E)
    ensures Stale(F, c, old') == if c == F.zero then old' else F.zero
  {
  }

  lemma CellIsFull<E(!new)>(F: Field<E>, k: nat, M: seq<seq<E>>, S: seq<seq<E>>, order: seq<nat>, size: nat, i: nat,
                            b: nat)
    requires F.Valid() && Encodable(F, k, M, S, size) && DiskOrder(order, k) && 0 < k == |order| && i < |M| && b < size
    requires |FoldRun(F, k, M, S, order, k, size)| == |S|
    requires forall d | 0 <= d < k :: FoldRun(F, k, M, S, order, k, size)[d] == S[d]
    ensures var T := FoldRun(F, k, M, S, order, k, size);
      |M[i]| == k && |S[k + i]| == |T[k + i]| == size && |Slice(T, Range(k), b)| == k &&
      (T[k + i][b] == Dot(F, M[i], Slice(T, Range(k), b)) <==> Stale(F, M[i][order[0]], S[k + i][b]) == F.zero)
  {
    hide FoldRun, Dot, Partial;
    var T, x := FoldRun(F, k, M, S, order, k, size), Slice(S, Range(k), b);
    RunShape(F, k, M, S, size, i, b);
    FoldRunAt(F, k, M, S, order, k, size, i, b);
    AllFolded(F, x, order);
    assert Slice(T, Range(k), b) == x;
    var p, s := Dot(F, M[i], x), Stale(F, M[i][order[0]], S[k + i][b]);
    PartialElem(F, M[i], x, order, k);
    F.AddCancel(s, p);
    F.AddZero(p);
    F.Closed(s, p);
    F.AddCancel(F.add(s, p), p);
  }

  // A zero row leaves its coding buffer alone at every step.
  lemma {:induction false} ZeroRowFolds<E(!new)>(F: Field<E>, k: nat, M: seq<seq<E>>, S: seq<seq<E>>, order: seq<nat>,
                                                 n: nat, size: nat, i: nat)
    requires F.Valid() && Encodable(F, k, M, S, size) && DiskOrder(order, k) && n <= |order| && i < |M|
    requires |M[i]| == k && ZeroRow(F, M[i], k)
    ensures |FoldRun(F, k, M, S, order, n, size)| == |S| == k + |M|
    ensures FoldRun(F, k, M, S, order, n, size)[k + i] == S[k + i]
  {
    if n > 0 {
      ZeroRowFolds(F, k, M, S, order, n - 1, size, i);
      var T := FoldRun(F, k, M, S, order, n - 1, size);
      FoldEncodable(F, k, M, T, order[n - 1], n > 1, size);
      var was, held := T[k + i], Fold(F, k, M, T, order[n - 1], n > 1, size)[k + i];
      assert IsVec(F, was, size) && IsVec(F, held, size);
      forall b | 0 <= b < size
        ensures held[b] == was[b]
      {
        FoldCell(F, k, M, T, order[n - 1], n > 1, size, i, b);
      }
    }
  }

  lemma SameData<E(!new)>(k: nat, S: seq<seq<E>>, T: seq<seq<E>>, b: nat)
    requires k <= |S| && k <= |T| && forall d | 0 <= d < k :: T[d] == S[d] && b < |S[d]|
    ensures Slice(T, Range(k), b) == Slice(S, Range(k), b)
  {
  }

  // Two buffers over the same data that both hold the product, or one that does and an equal one.
  lemma CodedIsEqual<E(!new)>(F: Field<E>, k: nat, row: seq<E>, S: seq<seq<E>>, T: seq<seq<E>>, d: nat, size: nat)
    requires Elems(F, S, |S|, size) && Elems(F, T, |S|, size) && k <= |S| && |row| == k && d < |S|
    requires CodedAt(F, k, row, T, d, size) && forall e | 0 <= e < k :: T[e] == S[e]
    ensures CodedAt(F, k, row, S, d, size) <==> S[d] == T[d]
  {
    hide Dot;
    assert IsVec(F, S[d], size) && IsVec(F, T[d], size);
    forall b | 0 <= b < size
      ensures Slice(T, Range(k), b) == Slice(S, Range(k), b) && T[d][b] == Dot(F, row, Slice(T, Range(k), b))
    {
      assert forall e | 0 <= e < k :: IsVec(F, S[e], size);
      SameData(k, S, T, b);
    }
  }

  /** Folding all disks, in any order, leaves what encoding in one go leaves (T), for a coding buffer whose first
      coefficient is not zero, or which held only zeros, or whose row is zero; and for no other. */
  lemma IncrementalIsFull<E(!new)>(F: Field<E>, k: nat, M: seq<seq<E>>, S: seq<seq<E>>, T: seq<seq<E>>, order: seq<nat>,
                                   size: nat, i: nat)
    requires F.Valid() && Encodable(F, k, M, S, size) && DiskOrder(order, k) && 0 < k == |order| && i < |M|
    requires EncodedTo(F, k, M, S, T, |M|, size)
    ensures |FoldRun(F, k, M, S, order, k, size)| == |S| == |T| == k + |M| && |M[i]| == k
    ensures FoldRun(F, k, M, S, order, k, size)[k + i] == T[k + i] <==>
      M[i][order[0]] != F.zero || S[k + i] == ZeroVec(F, size) || ZeroRow(F, M[i], k)
  {
    hide FoldRun, CodedAt;
    var U := FoldRun(F, k, M, S, order, k, size);
    assert IsVec(F, M[i], k);
    FoldedIsProduct(F, k, M, S, order, size, i);
    FoldRunData(F, k, M, S, order, k, size);
    assert EncodedRow(F, k, M, S, T, i, size);
    if ZeroRow(F, M[i], k) {
      ZeroRowFolds(F, k, M, S, order, k, size, i);
    } else {
      CodedIsEqual(F, k, M[i], U, T, k + i, size);
    }
  }

  /** A row that starts with a zero, on a buffer that was not cleared: the old contents are still in the sum. */
  lemma StaleExample<E(!new)>(F: Field<E>, c: E, v: E)
    requires F.Valid() && F.elem(c) && c != F.zero && F.elem(v) && v != F.zero
    ensures var M, S, T := [[F.zero, c]], [[F.zero], [F.zero], [v]], [[F.zero], [F.zero], [F.zero]];
      && Encodable(F, 2, M, S, 1) && EncodedTo(F, 2, M, S, T, 1, 1) && DiskOrder([0, 1], 2)
      && FoldRun(F, 2, M, S, [0, 1], 2, 1)[2] != T[2]
  {
    var M, S, T := [[F.zero, c]], [[F.zero], [F.zero], [v]], [[F.zero], [F.zero], [F.zero]];
    assert Slice(T, Range(2), 0) == [F.zero, F.zero];
    DotZero(F, M[0], [F.zero, F.zero], 2);
    assert M[0][1] == c && !ZeroRow(F, M[0], 2);
    assert CodedAt(F, 2, M[0], T, 2, 1);
    assert EncodedRow(F, 2, M, S, T, 0, 1);
    assert S[2][0] != ZeroVec(F, 1)[0];
    IncrementalIsFull(F, 2, M, S, T, [0, 1], 1, 0);
  }
}

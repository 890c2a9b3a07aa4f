/** Encoding with a matrix over a field (jerasure.c): one product of a row with the devices at a time. */
module MatrixEncoding {
  import opened Fields
  import opened LinearAlgebra
  import opened Buffers
  import opened Elimination
  import opened Options
  import opened SourceDevices

  ghost predicate Elems<E(!new)>(F: Field<E>, S: seq<seq<E>>, devs: nat, size: nat) {
    |S| == devs && forall d | 0 <= d < devs :: IsVec(F, S[d], size)
  }

  // What the sources hold at position b.
  ghost function Slice<E>(S: seq<seq<E>>, ids: seq<nat>, b: nat): (x: seq<E>)
    requires forall i | 0 <= i < |ids| :: ids[i] < |S| && b < |S[ids[i]]|
    ensures |x| == |ids|
  {
    seq(|ids|, i requires 0 <= i < |ids| => S[ids[i]][b])
  }

  ghost predicate ZeroRow<E(!new)>(F: Field<E>, row: seq<E>, n: nat)
    requires n <= |row|
  {
    forall i | 0 <= i < n :: row[i] == F.zero
  }

  ghost predicate Aligned<E(!new)>(F: Field<E>, row: seq<E>, ids: seq<nat>, S: seq<seq<E>>, devs: nat, size: nat) {
    Elems(F, S, devs, size) && IsVec(F, row, |ids|) && forall i | 0 <= i < |ids| :: ids[i] < devs
  }

  /** Device dest becomes the product of the row with the sources; a zero row leaves it as it was. */
  ghost function DotInto<E(!new)>(F: Field<E>, row: seq<E>, ids: seq<nat>, dest: nat, S: seq<seq<E>>,
                                  size: nat): (T: seq<seq<E>>)
    requires Aligned(F, row, ids, S, |S|, size) && dest < |S|
    ensures |T| == |S|
  {
    if ZeroRow(F, row, |row|) then S
      else S[dest := seq(size, b requires 0 <= b < size => Dot(F, row, Slice(S, ids, b)))]
  }

  // ---- The row in two parts: its ones, then its other entries.

  function OnesOf<E(==,!new)>(F: Field<E>, row: seq<E>): (r: seq<E>)
    ensures |r| == |row|
  {
    seq(|row|, i requires 0 <= i < |row| => if row[i] == F.one then F.one else F.zero)
  }

  function OthersOf<E(==,!new)>(F: Field<E>, row: seq<E>): (r: seq<E>)
    ensures |r| == |row|
  {
    seq(|row|, i requires 0 <= i < |row| => if row[i] == F.one then F.zero else row[i])
  }

  // The sum after n ones and n' others.
  ghost function Total<E(!new)>(F: Field<E>, row: seq<E>, x: seq<E>, n: nat, n': nat): E
    requires |row| == |x| && n <= |row| && n' <= |row|
  {
    F.add(DotTo(F, OnesOf(F, row), x, n), DotTo(F, OthersOf(F, row), x, n'))
  }

  ghost predicate NothingYet<E(!new)>(F: Field<E>, row: seq<E>, n: nat, n': nat)
    requires n <= |row| && n' <= |row|
  {
    ZeroRow(F, OnesOf(F, row), n) && ZeroRow(F, OthersOf(F, row), n')
  }

  lemma PartsAreVecs<E(!new)>(F: Field<E>, row: seq<E>)
    requires F.Valid() && IsVec(F, row, |row|)
    ensures IsVec(F, OnesOf(F, row), |row|) && IsVec(F, OthersOf(F, row), |row|)
  {
  }

  lemma TotalNothing<E(!new)>(F: Field<E>, row: seq<E>, x: seq<E>, n: nat, n': nat)
    requires F.Valid() && IsVec(F, row, |row|) && IsVec(F, x, |row|) && n <= |row| && n' <= |row|
    requires NothingYet(F, row, n, n')
    ensures Total(F, row, x, n, n') == F.zero
  {
    PartsAreVecs(F, row);
    DotZero(F, OnesOf(F, row), x, n);
    DotZero(F, OthersOf(F, row), x, n');
    F.AddZero(F.zero);
  }

  lemma TotalElem<E(!new)>(F: Field<E>, row: seq<E>, x: seq<E>, n: nat, n': nat)
    requires F.Valid() && IsVec(F, row, |row|) && IsVec(F, x, |row|) && n <= |row| && n' <= |row|
    ensures F.elem(DotTo(F, OnesOf(F, row), x, n)) && F.elem(DotTo(F, OthersOf(F, row), x, n'))
    ensures F.elem(Total(F, row, x, n, n'))
  {
    PartsAreVecs(F, row);
    DotElem(F, OnesOf(F, row), x, n);
    DotElem(F, OthersOf(F, row), x, n');
    F.Closed(DotTo(F, OnesOf(F, row), x, n), DotTo(F, OthersOf(F, row), x, n'));
  }

  // One more entry in the first pass.
  lemma TotalOne<E(!new)>(F: Field<E>, row: seq<E>, x: seq<E>, i: nat)
    requires F.Valid() && IsVec(F, row, |row|) && IsVec(F, x, |row|) && i < |row|
    ensures row[i] == F.one ==> Total(F, row, x, i + 1, 0) == F.add(x[i], Total(F, row, x, i, 0))
    ensures row[i] == F.one && NothingYet(F, row, i, 0) ==> Total(F, row, x, i + 1, 0) == x[i]
    ensures row[i] != F.one ==> Total(F, row, x, i + 1, 0) == Total(F, row, x, i, 0)
  {
    TotalElem(F, row, x, i, 0);
    var d := DotTo(F, OnesOf(F, row), x, i);
    F.MulOne(x[i]);
    F.MulZero(x[i]);
    F.AddZero(d);
    F.AddZero(x[i]);
    F.Closed(d, x[i]);
    F.AddZero(F.add(d, x[i]));
    assert F.AddLaws(d, x[i], d);
    if NothingYet(F, row, i, 0) {
      TotalNothing(F, row, x, i, 0);
    }
  }

  // One more entry in the second pass.
  lemma TotalOther<E(!new)>(F: Field<E>, row: seq<E>, x: seq<E>, i: nat)
    requires F.Valid() && IsVec(F, row, |row|) && IsVec(F, x, |row|) && i < |row|
    ensures row[i] != F.zero && row[i] != F.one ==>
      Total(F, row, x, |row|, i + 1) == F.add(Total(F, row, x, |row|, i), F.mul(row[i], x[i]))
    ensures row[i] != F.zero && row[i] != F.one && NothingYet(F, row, |row|, i) ==>
      Total(F, row, x, |row|, i + 1) == F.mul(row[i], x[i])
    ensures !(row[i] != F.zero && row[i] != F.one) ==> Total(F, row, x, |row|, i + 1) == Total(F, row, x, |row|, i)
  {
    TotalElem(F, row, x, |row|, i);
    var d, d' := DotTo(F, OnesOf(F, row), x, |row|), DotTo(F, OthersOf(F, row), x, i);
    F.Closed(row[i], x[i]);
    F.MulZero(x[i]);
    F.AddZero(d');
    F.AddZero(F.mul(row[i], x[i]));
    assert F.AddLaws(d, d', F.mul(row[i], x[i]));
    if NothingYet(F, row, |row|, i) {
      TotalNothing(F, row, x, |row|, i);
    }
  }

  lemma TotalIsDot<E(!new)>(F: Field<E>, row: seq<E>, x: seq<E>)
    requires F.Valid() && IsVec(F, row, |row|) && IsVec(F, x, |row|)
    ensures Total(F, row, x, |row|, |row|) == Dot(F, row, x)
  {
    PartsAreVecs(F, row);
    TotalElem(F, row, x, |row|, |row|);
    var ones, others := OnesOf(F, row), OthersOf(F, row);
    forall i | 0 <= i < |row|
      ensures AddScaled(F, ones, F.one, others)[i] == row[i]
    {
      F.MulOne(others[i]);
      F.AddZero(ones[i]);
      F.AddZero(others[i]);
    }
    assert AddScaled(F, ones, F.one, others) == row;
    DotAddScaled(F, ones, F.one, others, x, |row|);
    F.MulOne(Dot(F, others, x));
  }

  lemma ZeroParts<E(!new)>(F: Field<E>, row: seq<E>)
    requires F.Valid()
    ensures NothingYet(F, row, |row|, |row|) <==> ZeroRow(F, row, |row|)
  {
    if NothingYet(F, row, |row|, |row|) {
      forall i | 0 <= i < |row|
        ensures row[i] == F.zero
      {
        assert OnesOf(F, row)[i] == F.zero && OthersOf(F, row)[i] == F.zero;
      }
    }
  }

  // ---- One region at a time.

  // memcpy, or galois_region_xor when add.
  method CopyRegion<E(!new)>(F: Field<E>, src: array<E>, dst: array<E>, add: bool)
    requires src != dst && src.Length == dst.Length
    modifies dst
    ensures forall b | 0 <= b < dst.Length :: dst[b] == if add then F.add(src[b], old(dst[b])) else src[b]
  {
    for b := 0 to dst.Length
      invariant forall b' | 0 <= b' < b :: dst[b'] == if add then F.add(src[b'], old(dst[b'])) else src[b']
      invariant forall b' | b <= b' < dst.Length :: dst[b'] == old(dst[b'])
    {
      dst[b] := if add then F.add(src[b], dst[b]) else src[b];
    }
  }

  // galois_w08_region_multiply, galois_w16_region_multiply and galois_w32_region_multiply.
  method RegionMultiply<E(!new)>(F: Field<E>, src: array<E>, multby: E, dst: array<E>, add: bool)
    requires src != dst && src.Length == dst.Length
    modifies dst
    ensures forall b | 0 <= b < dst.Length ::
      dst[b] == if add then F.add(old(dst[b]), F.mul(multby, src[b])) else F.mul(multby, src[b])
  {
    for b := 0 to dst.Length
      invariant forall b' | 0 <= b' < b ::
        dst[b'] == if add then F.add(old(dst[b']), F.mul(multby, src[b'])) else F.mul(multby, src[b'])
      invariant forall b' | b <= b' < dst.Length :: dst[b'] == old(dst[b'])
    {
      var prod := F.mul(multby, src[b]);
      dst[b] := if add then F.add(dst[b], prod) else prod;
    }
  }

  // Where the product stands: init says whether device dest has been written.
  ghost predicate Standing<E(!new)>(F: Field<E>, row: seq<E>, ids: seq<nat>, dest: nat, S: seq<seq<E>>, T: seq<seq<E>>,
                                    size: nat, n: nat, n': nat, init: bool)
    requires Aligned(F, row, ids, S, |S|, size) && dest < |S| && n <= |row| && n' <= |row|
  {
    && Elems(F, T, |S|, size)
    && (forall d | 0 <= d < |S| && d != dest :: T[d] == S[d])
    && (init <==> !NothingYet(F, row, n, n'))
    && (forall b | 0 <= b < size :: T[dest][b] == if init then Total(F, row, Slice(S, ids, b), n, n') else S[dest][b])
  }

  lemma SliceElems<E(!new)>(F: Field<E>, ids: seq<nat>, S: seq<seq<E>>, size: nat, b: nat)
    requires Elems(F, S, |S|, size) && (forall i | 0 <= i < |ids| :: ids[i] < |S|) && b < size
    ensures IsVec(F, Slice(S, ids, b), |ids|)
  {
  }

  // Entry i of the first pass: v is what device dest holds afterwards.
  lemma StepOne<E(!new)>(F: Field<E>, row: seq<E>, ids: seq<nat>, dest: nat, S: seq<seq<E>>, T: seq<seq<E>>, size: nat,
                         i: nat, init: bool, v: seq<E>)
    requires F.Valid() && Aligned(F, row, ids, S, |S|, size) && dest < |S| && dest !in ids && i < |row|
    requires Standing(F, row, ids, dest, S, T, size, i, 0, init) && |v| == size
    requires row[i] == F.one ==>
      forall b | 0 <= b < size :: v[b] == if init then F.add(S[ids[i]][b], T[dest][b]) else S[ids[i]][b]
    ensures row[i] == F.one ==> Standing(F, row, ids, dest, S, T[dest := v], size, i + 1, 0, true)
    ensures row[i] != F.one ==> Standing(F, row, ids, dest, S, T, size, i + 1, 0, init)
  {
    hide Total;
    assert OnesOf(F, row)[i] == if row[i] == F.one then F.one else F.zero;
    forall b | 0 <= b < size
      ensures var x := Slice(S, ids, b); F.elem(Total(F, row, x, i + 1, 0))
      ensures var x := Slice(S, ids, b); row[i] == F.one ==> Total(F, row, x, i + 1, 0) == v[b]
      ensures var x := Slice(S, ids, b); row[i] != F.one ==> Total(F, row, x, i + 1, 0) == Total(F, row, x, i, 0)
    {
      SliceElems(F, ids, S, size, b);
      TotalOne(F, row, Slice(S, ids, b), i);
      TotalElem(F, row, Slice(S, ids, b), i + 1, 0);
    }
    assert row[i] == F.one ==> IsVec(F, v, size);
  }

  // Entry i of the second pass.
  lemma StepOther<E(!new)>(F: Field<E>, row: seq<E>, ids: seq<nat>, dest: nat, S: seq<seq<E>>, T: seq<seq<E>>,
                           size: nat, i: nat, init: bool, v: seq<E>)
    requires F.Valid() && Aligned(F, row, ids, S, |S|, size) && dest < |S| && dest !in ids && i < |row|
    requires Standing(F, row, ids, dest, S, T, size, |row|, i, init) && |v| == size
    requires row[i] != F.zero && row[i] != F.one ==>
      forall b | 0 <= b < size ::
      v[b] == if init then F.add(T[dest][b], F.mul(row[i], S[ids[i]][b])) else F.mul(row[i], S[ids[i]][b])
    ensures row[i] != F.zero && row[i] != F.one ==>
      Standing(F, row, ids, dest, S, T[dest := v], size, |row|, i + 1, true)
    ensures !(row[i] != F.zero && row[i] != F.one) ==> Standing(F, row, ids, dest, S, T, size, |row|, i + 1, init)
  {
    hide Total;
    assert OthersOf(F, row)[i] == if row[i] == F.one then F.zero else row[i];
    forall b | 0 <= b < size
      ensures var x := Slice(S, ids, b); F.elem(Total(F, row, x, |row|, i + 1))
      ensures var x := Slice(S, ids, b); row[i] != F.zero && row[i] != F.one ==> Total(F, row, x, |row|, i + 1) == v[b]
      ensures var x := Slice(S, ids, b);
        !(row[i] != F.zero && row[i] != F.one) ==> Total(F, row, x, |row|, i + 1) == Total(F, row, x, |row|, i)
    {
      SliceElems(F, ids, S, size, b);
      TotalOther(F, row, Slice(S, ids, b), i);
      TotalElem(F, row, Slice(S, ids, b), |row|, i + 1);
    }
    assert row[i] != F.zero && row[i] != F.one ==> IsVec(F, v, size);
  }

  lemma StandingStart<E(!new)>(F: Field<E>, row: seq<E>, ids: seq<nat>, dest: nat, S: seq<seq<E>>, size: nat)
    requires Aligned(F, row, ids, S, |S|, size) && dest < |S|
    ensures Standing(F, row, ids, dest, S, S, size, 0, 0, false)
  {
  }

  lemma StandingEnd<E(!new)>(F: Field<E>, row: seq<E>, ids: seq<nat>, dest: nat, S: seq<seq<E>>, T: seq<seq<E>>,
                             size: nat, init: bool)
    requires F.Valid() && Aligned(F, row, ids, S, |S|, size) && dest < |S|
    requires Standing(F, row, ids, dest, S, T, size, |row|, |row|, init)
    ensures T == DotInto(F, row, ids, dest, S, size)
  {
    hide Total;
    ZeroParts(F, row);
    var R := DotInto(F, row, ids, dest, S, size);
    forall b | 0 <= b < size
      ensures T[dest][b] == R[dest][b]
    {
      SliceElems(F, ids, S, size, b);
      TotalIsDot(F, row, Slice(S, ids, b));
    }
    assert T[dest] == R[dest];
    assert forall d | 0 <= d < |S| :: T[d] == R[d];
  }

  /** jerasure_matrix_dotprod. */
  method MatrixDotprod<E(==,!new)>(F: Field<E>, row: seq<E>, srcIds: Option<seq<nat>>, dest: nat, ptrs: seq<array<E>>,
                                   size: nat)
    requires F.Valid() && Distinct(ptrs) && AllSized(ptrs, size) && dest < |ptrs|
    requires Aligned(F, row, Sources(|row|, srcIds), Contents(ptrs), |ptrs|, size) && dest !in Sources(|row|, srcIds)
    modifies ptrs[dest]
    ensures Contents(ptrs) == DotInto(F, row, Sources(|row|, srcIds), dest, old(Contents(ptrs)), size)
  {
    hide Sources, Standing, Total, NothingYet, DotInto, Aligned;
    ghost var S, ids := Contents(ptrs), Sources(|row|, srcIds);
    var init := false;
    StandingStart(F, row, ids, dest, S, size);
    for i := 0 to |row|
      invariant Standing(F, row, ids, dest, S, Contents(ptrs), size, i, 0, init)
    {
      ghost var T := Contents(ptrs);
      if row[i] == F.one {
        SourceKept(F, row, ids, dest, S, T, size, i, 0, init, i);
        var source := SourceOf(|row|, srcIds, i);
        CopyRegion(F, ptrs[source], ptrs[dest], init);
        Written(ptrs, dest, T);
        StepOne(F, row, ids, dest, S, T, size, i, init, ptrs[dest][..]);
        init := true;
      } else {
        StepOne(F, row, ids, dest, S, T, size, i, init, S[dest]);
      }
    }
    for i := 0 to |row|
      invariant Standing(F, row, ids, dest, S, Contents(ptrs), size, |row|, i, init)
    {
      ghost var T := Contents(ptrs);
      if row[i] != F.zero && row[i] != F.one {
        SourceKept(F, row, ids, dest, S, T, size, |row|, i, init, i);
        var source := SourceOf(|row|, srcIds, i);
        RegionMultiply(F, ptrs[source], row[i], ptrs[dest], init);
        Written(ptrs, dest, T);
        StepOther(F, row, ids, dest, S, T, size, i, init, ptrs[dest][..]);
        init := true;
      } else {
        StepOther(F, row, ids, dest, S, T, size, i, init, S[dest]);
      }
    }
    StandingEnd(F, row, ids, dest, S, Contents(ptrs), size, init);
  }

  lemma SourceKept<E(!new)>(F: Field<E>, row: seq<E>, ids: seq<nat>, dest: nat, S: seq<seq<E>>, T: seq<seq<E>>,
                            size: nat, n: nat, n': nat, init: bool, i: nat)
    requires Aligned(F, row, ids, S, |S|, size) && dest < |S| && dest !in ids && n <= |row| && n' <= |row| && i < |row|
    requires Standing(F, row, ids, dest, S, T, size, n, n', init)
    ensures |ids| == |row| && |T| == |S| && ids[i] < |S| && ids[i] != dest && T[ids[i]] == S[ids[i]]
  {
  }

  // ---- Encoding.

  ghost predicate CodedAt<E(!new)>(F: Field<E>, k: nat, row: seq<E>, S: seq<seq<E>>, d: nat, size: nat)
    requires Elems(F, S, |S|, size) && k <= |S| && |row| == k && d < |S|
  {
    forall b | 0 <= b < size :: S[d][b] == Dot(F, row, Slice(S, Range(k), b))
  }

  lemma DotIntoCodes<E(!new)>(F: Field<E>, k: nat, row: seq<E>, S: seq<seq<E>>, d: nat, size: nat)
    requires F.Valid() && Aligned(F, row, Range(k), S, |S|, size) && |row| == k <= d < |S|
    ensures var T := DotInto(F, row, Range(k), d, S, size);
      Elems(F, T, |S|, size) && (forall e | 0 <= e < |S| && e != d :: T[e] == S[e])
    ensures var T := DotInto(F, row, Range(k), d, S, size);
      if ZeroRow(F, row, k) then T == S else CodedAt(F, k, row, T, d, size)
  {
    var T := DotInto(F, row, Range(k), d, S, size);
    forall b | 0 <= b < size
      ensures F.elem(Dot(F, row, Slice(S, Range(k), b)))
    {
      SliceElems(F, Range(k), S, size, b);
      DotElem(F, row, Slice(S, Range(k), b), k);
    }
    if !ZeroRow(F, row, k) {
      forall b | 0 <= b < size
        ensures T[d][b] == Dot(F, row, Slice(T, Range(k), b))
      {
        assert Slice(T, Range(k), b) == Slice(S, Range(k), b);
      }
    }
  }

  // Other devices do not matter to a coding device.
  lemma CodedKept<E(!new)>(F: Field<E>, k: nat, row: seq<E>, S: seq<seq<E>>, T: seq<seq<E>>, d: nat, size: nat)
    requires Elems(F, S, |S|, size) && Elems(F, T, |S|, size) && k <= |S| && |row| == k && d < |S|
    requires CodedAt(F, k, row, S, d, size)
    requires T[d] == S[d] && forall e | 0 <= e < k :: T[e] == S[e]
    ensures CodedAt(F, k, row, T, d, size)
  {
    forall b | 0 <= b < size
      ensures T[d][b] == Dot(F, row, Slice(T, Range(k), b))
    {
      assert Slice(T, Range(k), b) == Slice(S, Range(k), b);
    }
  }

  /** What encoding makes of device k + i: the product of row i with the data, unless the row is zero. */
  ghost predicate EncodedRow<E(!new)>(F: Field<E>, k: nat, M: seq<seq<E>>, S: seq<seq<E>>, T: seq<seq<E>>, i: nat,
                                      size: nat)
    requires Elems(F, T, |S|, size) && |S| == k + |M| && i < |M| && |M[i]| == k
  {
    if ZeroRow(F, M[i], k) then T[k + i] == S[k + i] else CodedAt(F, k, M[i], T, k + i, size)
  }

  // The first i coding devices are done.
  ghost predicate EncodedTo<E(!new)>(F: Field<E>, k: nat, M: seq<seq<E>>, S: seq<seq<E>>, T: seq<seq<E>>, n: nat,
                                     size: nat)
  {
    && |S| == k + |M| && n <= |M| && IsMatrix(F, M, |M|, k) && Elems(F, S, |S|, size) && Elems(F, T, |S|, size)
    && (forall d | 0 <= d < k || k + n <= d < |S| :: T[d] == S[d])
    && (forall i | 0 <= i < n :: EncodedRow(F, k, M, S, T, i, size))
  }

  lemma EncodeNext<E(!new)>(F: Field<E>, k: nat, M: seq<seq<E>>, S: seq<seq<E>>, T: seq<seq<E>>, n: nat, size: nat)
    requires F.Valid() && EncodedTo(F, k, M, S, T, n, size) && n < |M|
    ensures Aligned(F, M[n], Range(k), T, |S|, size)
    ensures EncodedTo(F, k, M, S, DotInto(F, M[n], Range(k), k + n, T, size), n + 1, size)
  {
    hide CodedAt, DotInto;
    assert IsVec(F, M[n], k);
    DotIntoCodes(F, k, M[n], T, k + n, size);
    var T' := DotInto(F, M[n], Range(k), k + n, T, size);
    forall i | 0 <= i < n + 1
      ensures EncodedRow(F, k, M, S, T', i, size)
    {
      if i < n {
        assert EncodedRow(F, k, M, S, T, i, size);
        if !ZeroRow(F, M[i], k) {
          CodedKept(F, k, M[i], T, T', k + i, size);
        }
      }
    }
  }

  /** jerasure_matrix_encode, for w of 8, 16 or 32. */
  method MatrixEncode<E(==,!new)>(F: Field<E>, k: nat, m: nat, matrix: array2<E>, ptrs: seq<array<E>>, size: nat)
    requires F.Valid() && Distinct(ptrs) && AllSized(ptrs, size) && |ptrs| == k + m
    requires IsMatrix(F, Rows(matrix), m, k) && Elems(F, Contents(ptrs), k + m, size)
    modifies ptrs
    ensures EncodedTo(F, k, Rows(matrix), old(Contents(ptrs)), Contents(ptrs), m, size)
  {
    hide EncodedTo, DotInto;
    ghost var M, S := Rows(matrix), Contents(ptrs);
    StartEncoding(F, k, M, S, size);
    for i := 0 to m
      invariant Rows(matrix) == M && EncodedTo(F, k, M, S, Contents(ptrs), i, size)
    {
      EncodeNext(F, k, M, S, Contents(ptrs), i, size);
      MatrixDotprod(F, Rows(matrix)[i], None, k + i, ptrs, size);
    }
  }

  lemma StartEncoding<E(!new)>(F: Field<E>, k: nat, M: seq<seq<E>>, S: seq<seq<E>>, size: nat)
    requires |S| == k + |M| && IsMatrix(F, M, |M|, k) && Elems(F, S, |S|, size)
    ensures EncodedTo(F, k, M, S, S, 0, size)
  {
  }
}

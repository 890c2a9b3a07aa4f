/** jerasure_bitmatrix_decode: decoding with a bitmatrix, device by device and without a schedule. */
module BitmatrixDecoding {
  import opened Arithmetic
  import opened Fields
  import opened LinearAlgebra
  import opened Elimination
  import opened Schedules
  import opened Buffers
  import opened Encoders
  import opened Erasures
  import opened DecodingTheory
  import opened ScheduledDecoding
  import opened Codewords
  import opened Recovery
  import opened RecoveryLimits
  import opened Options
  import opened SourceDevices
  import opened MatrixDecoding
  import opened BitmatrixRecovery

  // ---- The decoding bitmatrix.

  method SetUnit(a: array2<bool>, r: nat, u: nat)
    requires r < a.Length0 && u < a.Length1
    modifies a
    ensures Rows(a) == old(Rows(a))[r := UnitVec(F2, a.Length1, u)]
  {
    for c := 0 to a.Length1
      invariant forall i, j | 0 <= i < a.Length0 && 0 <= j < a.Length1 ::
        a[i, j] == if i == r && j < c then false else old(a[i, j])
    {
      a[r, c] := false;
    }
    a[r, u] := true;
    assert forall i | 0 <= i < a.Length0 :: Rows(a)[i] == old(Rows(a))[r := UnitVec(F2, a.Length1, u)][i];
  }

  // Row q of the survivor matrix: packet x of the i-th survivor.
  lemma RowOfSurvivor(k: nat, m: nat, w: nat, cols: nat, B: seq<seq<bool>>, ids: seq<nat>, i: nat, x: nat, q: nat,
                      first: nat)
    requires 0 < w && Shape(k, m, w, cols, |B|) && IsBitmatrix(B, |B|, cols) && i < k == |ids| && x < w
    requires Column(w, i, x, q) && ids[i] < k + m
    ensures q < cols
    ensures ids[i] < k && Column(w, ids[i], 0, first) ==>
      first + x < cols && SurvivorMatrix(w, cols, B, ids)[q] == UnitVec(F2, cols, first + x)
    ensures ids[i] >= k && Column(w, ids[i] - k, 0, first) ==>
      first + x < |B| && SurvivorMatrix(w, cols, B, ids)[q] == B[first + x]
  {
    ColumnNext(k, w, i, x, q, cols);
    GeneratorRow(k, m, w, cols, B, ids[i], x, first);
  }

  /** jerasure_make_decoding_bitmatrix: the rows of the first k survivors are inverted, or found singular. */
  method MakeDecodingBitmatrix(k: nat, m: nat, w: nat, bitmatrix: array2<bool>, erased: array<bool>)
    returns (r: int, decodingMatrix: array2<bool>, dmIds: seq<nat>)
    requires 0 < w && Shape(k, m, w, bitmatrix.Length1, bitmatrix.Length0) && erased.Length == k + m
    requires |Where(erased[..], 0, k + m, false)| >= k
    ensures fresh(decodingMatrix) && decodingMatrix.Length0 == decodingMatrix.Length1 == bitmatrix.Length1
    ensures dmIds == FirstSurvivors(erased[..], k) && (r == 0 || r == -1)
    ensures r == 0 <==> Nonsingular(F2, SurvivorMatrix(w, bitmatrix.Length1, Rows(bitmatrix), dmIds), bitmatrix.Length1)
    ensures r == 0 ==>
      Inverses(F2, SurvivorMatrix(w, bitmatrix.Length1, Rows(bitmatrix), dmIds), Rows(decodingMatrix),
               bitmatrix.Length1)
  {
    hide Shape, Column, SurvivorMatrix, Rows, Nonsingular, Inverses, FirstSurvivors, Where;
    ghost var cols, B := bitmatrix.Length1, Rows(bitmatrix);
    var ids := ListSurvivors(k, erased);
    dmIds := ids[..];
    var tmpmat := FillTemporary(k, m, w, bitmatrix, dmIds);
    decodingMatrix := new bool[bitmatrix.Length1, bitmatrix.Length1];
    assert Rows(bitmatrix) == B;
    r := InvertBitmatrix(tmpmat, decodingMatrix);
    assert Rows(bitmatrix) == B;
  }

  method FillTemporary(k: nat, m: nat, w: nat, bitmatrix: array2<bool>, dmIds: seq<nat>) returns (tmpmat: array2<bool>)
    requires 0 < w && Shape(k, m, w, bitmatrix.Length1, bitmatrix.Length0) && |dmIds| == k
    requires forall i | 0 <= i < k :: dmIds[i] < k + m
    ensures fresh(tmpmat) && tmpmat.Length0 == tmpmat.Length1 == bitmatrix.Length1
    ensures Rows(tmpmat) == SurvivorMatrix(w, bitmatrix.Length1, Rows(bitmatrix), dmIds)
  {
    hide Shape, Column, SurvivorMatrix, Rows;
    ghost var cols, B := bitmatrix.Length1, Rows(bitmatrix);
    ghost var D := SurvivorMatrix(w, cols, B, dmIds);
    tmpmat := new bool[bitmatrix.Length1, bitmatrix.Length1];
    var row := 0;
    ColumnStart(w, 0, 0);
    for i := 0 to k
      invariant Column(w, i, 0, row) && row <= cols
      invariant forall q | 0 <= q < row :: Rows(tmpmat)[q] == D[q]
    {
      var d := if dmIds[i] < k then dmIds[i] else dmIds[i] - k;
      var first := d * w;
      ColumnIntro(w, d, first);
      for x := 0 to w
        invariant Column(w, i, x, row) && row <= cols
        invariant forall q | 0 <= q < row :: Rows(tmpmat)[q] == D[q]
      {
        RowOfSurvivor(k, m, w, cols, B, dmIds, i, x, row, first);
        ColumnNextOnly(w, i, x, row);
        if dmIds[i] < k {
          SetUnit(tmpmat, row, first + x);
        } else {
          CopyRow(tmpmat, row, bitmatrix, first + x);
        }
        row := row + 1;
      }
      ColumnStart(w, i, row);
    }
    AllRowsSet(k, m, w, cols, |B|, row);
    assert Rows(tmpmat) == D;
  }

  // ---- One device.

  // What does not change while decoding.
  ghost predicate Setting(k: nat, m: nat, w: nat, bitmatrix: array2<bool>, ptrs: seq<array<bool>>, size: nat, ps: nat,
                          stripes: nat)
  {
    && 0 < w && 0 < ps && 0 < w * ps && Shape(k, m, w, bitmatrix.Length1, bitmatrix.Length0)
    && |ptrs| == k + m && Distinct(ptrs) && AllSized(ptrs, Size(w, ps, stripes)) && size == Size(w, ps, stripes)
  }

  /** Restore device d with rows that recover it. */
  method RestoreDevice(k: nat, m: nat, w: nat, rows: array2<bool>, first: nat, srcIds: Option<seq<nat>>, d: nat,
                       ptrs: seq<array<bool>>, size: nat, ps: nat, ghost bitmatrix: array2<bool>, ghost stripes: nat,
                       ghost cols: nat, ghost B: seq<seq<bool>>, ghost e: seq<bool>, ghost S: seq<seq<bool>>,
                       ghost now: seq<seq<bool>>)
    requires Setting(k, m, w, bitmatrix, ptrs, size, ps, stripes) && cols == bitmatrix.Length1 == rows.Length1
    requires B == Rows(bitmatrix)
    requires Sound(k, m, e, Sources(k, srcIds), d)
    requires RecoversDevice(w, cols, B, Rows(rows), first, Sources(k, srcIds), d)
    requires d >= k ==> forall y | 0 <= y < w :: Rows(rows)[first + y] == Generator(cols, B, Pos(w, d, y))
    modifies ptrs
    ensures OnlyLostChange(e, old(Contents(ptrs)), Contents(ptrs))
    ensures Standing(k, m, w, ps, stripes, cols, B, e, S, now, old(Contents(ptrs)), d) ==>
      Standing(k, m, w, ps, stripes, cols, B, e, S, now, Contents(ptrs), d + 1)
  {
    hide Shape, Size, Standing, Rows, RecoversPacket, Generator, Sources, OnlyLostChange, OtherBuffers;
    ghost var T := Contents(ptrs);
    DotReady(k, m, w, cols, |B|, e, srcIds, d);
    SoundDevice(k, m, e, Sources(k, srcIds), d);
    BitmatrixDotprod(k, w, rows, first, srcIds, d, ptrs, size, ps, stripes);
    OneLostChanges(e, T, Contents(ptrs), d);
    if Standing(k, m, w, ps, stripes, cols, B, e, S, now, T, d) {
      StandingStep(k, m, w, ps, stripes, cols, B, e, Rows(rows), first, Sources(k, srcIds), S, now, T, d);
    }
  }

  lemma OneLostChanges(e: seq<bool>, S: seq<seq<bool>>, T: seq<seq<bool>>, d: nat)
    requires OtherBuffers(S, T, d) && |e| == |S| && d < |e| && e[d]
    ensures OnlyLostChange(e, S, T)
  {
  }

  lemma DotReady(k: nat, m: nat, w: nat, cols: nat, rows: nat, e: seq<bool>, srcIds: Option<seq<nat>>, d: nat)
    requires Shape(k, m, w, cols, rows) && Sound(k, m, e, Sources(k, srcIds), d)
    ensures Column(w, k, 0, cols) && Sourced(k, srcIds, k + m) && d < k + m
  {
  }

  // Devices that are not lost need nothing.
  lemma StandingSkip(k: nat, m: nat, w: nat, ps: nat, stripes: nat, cols: nat, B: seq<seq<bool>>, e: seq<bool>,
                     S: seq<seq<bool>>, now: seq<seq<bool>>, T: seq<seq<bool>>, n: nat, n': nat)
    requires Standing(k, m, w, ps, stripes, cols, B, e, S, now, T, n) && n <= n' <= |e|
    requires forall d | n <= d < n' :: !e[d]
    ensures Standing(k, m, w, ps, stripes, cols, B, e, S, now, T, n')
  {
    hide Kept, CodewordBuffers, Size, Shape;
  }

  // The survivors, and the inverse of their rows.
  ghost predicate Inverted(k: nat, m: nat, w: nat, cols: nat, B: seq<seq<bool>>, e: seq<bool>, ids: seq<nat>,
                           D: seq<seq<bool>>)
  {
    && 0 < w && Shape(k, m, w, cols, |B|) && IsBitmatrix(B, |B|, cols) && |e| == k + m && |ids| == k
    && (forall x | 0 <= x < k :: ids[x] < k + m && !e[ids[x]])
    && IsMatrix(F2, D, cols, cols) && Inverses(F2, SurvivorMatrix(w, cols, B, ids), D, cols)
  }

  lemma InvertedDevice(k: nat, m: nat, w: nat, cols: nat, B: seq<seq<bool>>, e: seq<bool>, ids: seq<nat>,
                       D: seq<seq<bool>>, d: nat)
    requires Inverted(k, m, w, cols, B, e, ids, D) && d < k && e[d]
    ensures Sound(k, m, e, ids, d) && RecoversDevice(w, cols, B, D, Pos(w, d, 0), ids, d)
  {
    hide Shape, Inverses, SurvivorMatrix, Pos;
    InverseDevice(k, m, w, cols, B, ids, D, d, Pos(w, d, 0));
  }

  // The lost data devices before lastdrive, through the decoding matrix.
  method DecodeData(k: nat, m: nat, w: nat, decodingMatrix: array2<bool>, dmIds: seq<nat>, erased: array<bool>,
                    lastdrive: nat, edd0: nat, ptrs: seq<array<bool>>, size: nat, ps: nat,
                    ghost bitmatrix: array2<bool>, ghost stripes: nat, ghost cols: nat, ghost B: seq<seq<bool>>,
                    ghost S: seq<seq<bool>>, ghost now: seq<seq<bool>>) returns (edd: nat, ghost i: nat)
    requires Setting(k, m, w, bitmatrix, ptrs, size, ps, stripes) && cols == bitmatrix.Length1 && B == Rows(bitmatrix)
    requires erased.Length == k + m && erased !in ptrs && lastdrive <= k && edd0 == |Where(erased[..], 0, k, true)|
    requires (exists d | 0 <= d < lastdrive :: erased[d]) ==>
      decodingMatrix.Length1 == cols && Inverted(k, m, w, cols, B, erased[..], dmIds, Rows(decodingMatrix))
    modifies ptrs
    ensures erased[..] == old(erased[..])
    ensures OnlyLostChange(erased[..], old(Contents(ptrs)), Contents(ptrs))
    ensures i <= lastdrive && (edd == 0 || i == lastdrive) && edd == |Where(erased[..], i, k, true)|
    ensures Standing(k, m, w, ps, stripes, cols, B, erased[..], S, now, old(Contents(ptrs)), 0) ==>
      Standing(k, m, w, ps, stripes, cols, B, erased[..], S, now, Contents(ptrs), i)
  {
    hide Shape, Size, Standing, Inverted, Rows, Where, RecoversDevice, Sound, OnlyLostChange;
    ghost var e, D, T := erased[..], Rows(decodingMatrix), Contents(ptrs);
    KeptStart(e, T);
    edd := edd0;
    var i' := 0;
    while edd > 0 && i' < lastdrive
      invariant i' <= lastdrive && edd == |Where(e, i', k, true)|
      invariant erased[..] == e && Rows(decodingMatrix) == D && Rows(bitmatrix) == B
      invariant OnlyLostChange(e, T, Contents(ptrs))
      invariant Standing(k, m, w, ps, stripes, cols, B, e, S, now, T, 0) ==>
        Standing(k, m, w, ps, stripes, cols, B, e, S, now, Contents(ptrs), i')
    {
      LostFrom(e, i', k);
      if erased[i'] {
        InvertedDevice(k, m, w, cols, B, e, dmIds, D, i');
        var first := i' * w;
        ghost var U := Contents(ptrs);
        PosIs'(w, i', first);
        RestoreDevice(k, m, w, decodingMatrix, first, Some(dmIds), i', ptrs, size, ps, bitmatrix, stripes, cols, B, e,
                      S, now);
        KeptTwice(e, T, U, Contents(ptrs));
        edd := edd - 1;
      } else if Standing(k, m, w, ps, stripes, cols, B, e, S, now, T, 0) {
        StandingSkip(k, m, w, ps, stripes, cols, B, e, S, now, Contents(ptrs), i', i' + 1);
      }
      i' := i' + 1;
    }
    i := i';
  }

  lemma KeptStart(e: seq<bool>, T: seq<seq<bool>>)
    requires |e| == |T|
    ensures OnlyLostChange(e, T, T)
  {
  }

  lemma PosIs'(w: nat, d: nat, first: nat)
    requires first == d * w
    ensures first == Pos(w, d, 0)
  {
  }

  // The lost coding devices.
  method DecodeCoding(k: nat, m: nat, w: nat, bitmatrix: array2<bool>, erased: array<bool>, ptrs: seq<array<bool>>,
                      size: nat, ps: nat, ghost stripes: nat, ghost cols: nat, ghost B: seq<seq<bool>>,
                      ghost S: seq<seq<bool>>, ghost now: seq<seq<bool>>)
    requires Setting(k, m, w, bitmatrix, ptrs, size, ps, stripes) && cols == bitmatrix.Length1 && B == Rows(bitmatrix)
    requires erased.Length == k + m && erased !in ptrs
    modifies ptrs
    ensures erased[..] == old(erased[..])
    ensures OnlyLostChange(erased[..], old(Contents(ptrs)), Contents(ptrs))
    ensures Standing(k, m, w, ps, stripes, cols, B, erased[..], S, now, old(Contents(ptrs)), k) ==>
      Standing(k, m, w, ps, stripes, cols, B, erased[..], S, now, Contents(ptrs), k + m)
  {
    hide Shape, Size, Standing, Rows, RecoversDevice, Sound, Column, OnlyLostChange;
    ghost var e, T := erased[..], Contents(ptrs);
    KeptStart(e, T);
    var first: nat := 0;
    ColumnStart(w, 0, 0);
    for i := 0 to m
      invariant Column(w, i, 0, first) && erased[..] == e && Rows(bitmatrix) == B
      invariant OnlyLostChange(e, T, Contents(ptrs))
      invariant Standing(k, m, w, ps, stripes, cols, B, e, S, now, T, k) ==>
        Standing(k, m, w, ps, stripes, cols, B, e, S, now, Contents(ptrs), k + i)
    {
      if erased[k + i] {
        CodingDevice(k, m, w, cols, B, k + i, first);
        CodingSound(k, m, e, k + i);
        ghost var U := Contents(ptrs);
        RestoreDevice(k, m, w, bitmatrix, first, None, k + i, ptrs, size, ps, bitmatrix, stripes, cols, B, e, S, now);
        KeptTwice(e, T, U, Contents(ptrs));
      } else if Standing(k, m, w, ps, stripes, cols, B, e, S, now, T, k) {
        StandingSkip(k, m, w, ps, stripes, cols, B, e, S, now, Contents(ptrs), k + i, k + i + 1);
      }
      NextColumn(w, i, first);
      first := first + w;
    }
  }

  lemma CodingSound(k: nat, m: nat, e: seq<bool>, d: nat)
    requires |e| == k + m && k <= d < k + m && e[d]
    ensures Sources(k, None) == Range(k) && Sound(k, m, e, Range(k), d)
  {
  }

  lemma NextColumn(w: nat, i: nat, first: nat)
    requires Column(w, i, 0, first)
    ensures Column(w, i + 1, 0, first + w)
  {
  }

  // ---- jerasure_bitmatrix_decode.

  // The decoding matrix that the flags e ask for can be made.
  ghost predicate BitmatrixDecodable(k: nat, w: nat, cols: nat, B: seq<seq<bool>>, e: seq<bool>)
    requires 0 < w && IsBitmatrix(B, |B|, cols) && |Where(e, 0, |e|, false)| >= k
  {
    Nonsingular(F2, SurvivorMatrix(w, cols, B, FirstSurvivors(e, k)), cols)
  }

  // The one data device that is left, through the parity device.
  method DecodeParity(k: nat, m: nat, w: nat, bitmatrix: array2<bool>, erased: array<bool>, lastdrive: nat,
                      ptrs: seq<array<bool>>, size: nat, ps: nat, ghost stripes: nat, ghost cols: nat,
                      ghost B: seq<seq<bool>>, ghost S: seq<seq<bool>>, ghost now: seq<seq<bool>>)
    requires Setting(k, m, w, bitmatrix, ptrs, size, ps, stripes) && cols == bitmatrix.Length1 && B == Rows(bitmatrix)
    requires 0 < m
    requires IdentityRows(w, cols, B) && erased.Length == k + m && erased !in ptrs
    requires lastdrive < k && !erased[k] && erased[lastdrive] && forall d | lastdrive < d < k :: !erased[d]
    modifies ptrs
    ensures erased[..] == old(erased[..]) && Rows(bitmatrix) == B
    ensures OnlyLostChange(erased[..], old(Contents(ptrs)), Contents(ptrs))
    ensures Standing(k, m, w, ps, stripes, cols, B, erased[..], S, now, old(Contents(ptrs)), lastdrive) ==>
      Standing(k, m, w, ps, stripes, cols, B, erased[..], S, now, Contents(ptrs), k)
  {
    hide Shape, Size, Standing, Rows, RecoversDevice, IdentityRows;
    ghost var e, T := erased[..], Contents(ptrs);
    var tmpids := SkipIds(k, lastdrive);
    ParityDevice(k, m, w, cols, B, lastdrive);
    RestoreDevice(k, m, w, bitmatrix, 0, Some(tmpids), lastdrive, ptrs, size, ps, bitmatrix, stripes, cols, B, e, S,
                  now);
    if Standing(k, m, w, ps, stripes, cols, B, e, S, now, T, lastdrive) {
      StandingSkip(k, m, w, ps, stripes, cols, B, e, S, now, Contents(ptrs), lastdrive + 1, k);
    }
  }

  method DecodeLost(k: nat, m: nat, w: nat, bitmatrix: array2<bool>, erased: array<bool>, lastdrive: nat, edd0: nat,
                    decodingMatrix: array2<bool>, dmIds: seq<nat>, rowKOnes: bool, ptrs: seq<array<bool>>, size: nat,
                    ps: nat, ghost stripes: nat, ghost cols: nat, ghost B: seq<seq<bool>>, ghost S: seq<seq<bool>>,
                    ghost now: seq<seq<bool>>)
    requires Setting(k, m, w, bitmatrix, ptrs, size, ps, stripes) && cols == bitmatrix.Length1 && B == Rows(bitmatrix)
    requires erased.Length == k + m && erased !in ptrs && (rowKOnes ==> 0 < m && IdentityRows(w, cols, B))
    requires edd0 == |Where(erased[..], 0, k, true)| && lastdrive <= k
    requires lastdrive < k ==> rowKOnes && !erased[k] && erased[lastdrive] && forall d | lastdrive < d < k :: !erased[d]
    requires NeedsInverse(k, erased[..], rowKOnes) ==>
      decodingMatrix.Length1 == cols && Inverted(k, m, w, cols, B, erased[..], dmIds, Rows(decodingMatrix))
    requires lastdrive == k && rowKOnes && !erased[k] ==> edd0 == 0
    modifies ptrs
    ensures erased[..] == old(erased[..])
    ensures OnlyLostChange(erased[..], old(Contents(ptrs)), Contents(ptrs))
    ensures Standing(k, m, w, ps, stripes, cols, B, erased[..], S, now, old(Contents(ptrs)), 0) ==>
      Standing(k, m, w, ps, stripes, cols, B, erased[..], S, now, Contents(ptrs), k + m)
  {
    hide Shape, Size, Standing, Rows, Inverted, Where, NeedsInverse, IdentityRows, OnlyLostChange;
    ghost var e, T := erased[..], Contents(ptrs);
    InverseAtHand(k, e, rowKOnes, lastdrive);
    var edd; ghost var i;
    edd, i := DecodeData(k, m, w, decodingMatrix, dmIds, erased, lastdrive, edd0, ptrs, size, ps, bitmatrix, stripes,
                         cols, B, S, now);
    assert Rows(bitmatrix) == B;
    ghost var T1 := Contents(ptrs);
    if edd > 0 {
      assert lastdrive < k by { StillLost(e, i, k); }
      DecodeParity(k, m, w, bitmatrix, erased, lastdrive, ptrs, size, ps, stripes, cols, B, S, now);
      KeptTwice(e, T, T1, Contents(ptrs));
    } else {
      NoneLost(e, i, k);
      if Standing(k, m, w, ps, stripes, cols, B, e, S, now, T, 0) {
        StandingSkip(k, m, w, ps, stripes, cols, B, e, S, now, Contents(ptrs), i, k);
      }
    }
    ghost var T2 := Contents(ptrs);
    DecodeCoding(k, m, w, bitmatrix, erased, ptrs, size, ps, stripes, cols, B, S, now);
    KeptTwice(e, T, T2, Contents(ptrs));
  }

  lemma StandingStart(k: nat, m: nat, w: nat, ps: nat, stripes: nat, cols: nat, B: seq<seq<bool>>, e: seq<bool>,
                      S: seq<seq<bool>>, now: seq<seq<bool>>)
    requires 0 < w && 0 < ps && Shape(k, m, w, cols, |B|) && IsBitmatrix(B, |B|, cols)
    requires Original(k, m, w, ps, stripes, cols, B, e, S, now)
    ensures Standing(k, m, w, ps, stripes, cols, B, e, S, now, now, 0)
  {
    hide CodewordBuffers, Size, Shape, BlankBit;
  }

  lemma StandingEnd(k: nat, m: nat, w: nat, ps: nat, stripes: nat, cols: nat, B: seq<seq<bool>>, e: seq<bool>,
                    S: seq<seq<bool>>, now: seq<seq<bool>>, T: seq<seq<bool>>)
    requires Standing(k, m, w, ps, stripes, cols, B, e, S, now, T, k + m)
    ensures T == S <==> ClearBuffers(w, ps, stripes, k, cols, B, e, now)
  {
    hide CodewordBuffers, Size, Shape, ClearBuffers, Kept;
    KeptIsRight(k, m, w, ps, stripes, cols, B, e, S, now);
    assert T == Kept(w, ps, k, cols, B, e, S, now);
  }

  // What a successful run leaves.
  ghost predicate DecodedRight(k: nat, m: nat, w: nat, ps: nat, stripes: nat, cols: nat, B: seq<seq<bool>>,
                               e: seq<bool>, S: seq<seq<bool>>, now: seq<seq<bool>>, T: seq<seq<bool>>)
    requires 0 < w && IsBitmatrix(B, |B|, cols)
  {
    Original(k, m, w, ps, stripes, cols, B, e, S, now) ==>
      (T == S <==> ClearBuffers(w, ps, stripes, k, cols, B, e, now))
  }

  // Once the lost devices are flagged.
  method DecodeFlagged(k: nat, m: nat, w: nat, bitmatrix: array2<bool>, erased: array<bool>, rowKOnes: bool,
                       ptrs: seq<array<bool>>, size: nat, ps: nat, ghost stripes: nat, ghost S: seq<seq<bool>>)
    returns (r: int)
    requires Setting(k, m, w, bitmatrix, ptrs, size, ps, stripes) && erased.Length == k + m && erased !in ptrs
    requires rowKOnes ==> 0 < m && IdentityRows(w, bitmatrix.Length1, Rows(bitmatrix))
    requires |Where(erased[..], 0, k + m, false)| >= k
    modifies ptrs
    ensures (r == 0 || r == -1) && (r == -1 ==> Contents(ptrs) == old(Contents(ptrs)))
    ensures OnlyLostChange(old(erased[..]), old(Contents(ptrs)), Contents(ptrs))
    ensures r == 0 <==> (NeedsInverse(k, old(erased[..]), rowKOnes) ==>
                           BitmatrixDecodable(k, w, bitmatrix.Length1, Rows(bitmatrix), old(erased[..])))
    ensures r == 0 ==>
      DecodedRight(k, m, w, ps, stripes, bitmatrix.Length1, Rows(bitmatrix), old(erased[..]), S, old(Contents(ptrs)),
                   Contents(ptrs))
  {
    hide Shape, Size, Standing, Rows, Inverted, Where, IdentityRows, FirstSurvivors, Inverses, Nonsingular,
         SurvivorMatrix, Original, ClearBuffers, OnlyLostChange;
    ghost var e, cols, B, now := erased[..], bitmatrix.Length1, Rows(bitmatrix), Contents(ptrs);
    KeptStart(e, now);
    var edd, lastdrive := CountLostData(k, erased);
    if !rowKOnes || erased[k] {
      lastdrive := k;
    }
    var decodingMatrix := new bool[0, 0]((i, j) => false);
    var dmIds := [];
    if edd > 1 || (edd > 0 && (!rowKOnes || erased[k])) {
      var made;
      made, decodingMatrix, dmIds := MakeDecodingBitmatrix(k, m, w, bitmatrix, erased);
      assert Rows(bitmatrix) == B;
      if made < 0 {
        return -1;
      }
      MadeInverted(k, m, w, cols, B, e, dmIds, decodingMatrix);
    }
    r := 0;
    assert Rows(bitmatrix) == B;
    DecodeLost(k, m, w, bitmatrix, erased, lastdrive, edd, decodingMatrix, dmIds, rowKOnes, ptrs, size, ps, stripes,
               cols, B, S, now);
    assert Rows(bitmatrix) == B;
    if Original(k, m, w, ps, stripes, cols, B, e, S, now) {
      StandingStart(k, m, w, ps, stripes, cols, B, e, S, now);
      StandingEnd(k, m, w, ps, stripes, cols, B, e, S, now, Contents(ptrs));
    }
  }

  lemma MadeInverted(k: nat, m: nat, w: nat, cols: nat, B: seq<seq<bool>>, e: seq<bool>, ids: seq<nat>,
                     decodingMatrix: array2<bool>)
    requires 0 < w && Shape(k, m, w, cols, |B|) && IsBitmatrix(B, |B|, cols) && |e| == k + m
    requires |Where(e, 0, |e|, false)| >= k
    requires ids == FirstSurvivors(e, k) && decodingMatrix.Length0 == decodingMatrix.Length1 == cols
    requires Inverses(F2, SurvivorMatrix(w, cols, B, ids), Rows(decodingMatrix), cols)
    ensures Inverted(k, m, w, cols, B, e, ids, Rows(decodingMatrix))
  {
  }

  /** jerasure_bitmatrix_decode. It returns -1 exactly for more than m lost devices or a singular matrix, and then no
      buffer has changed. A device that is not in the list is never changed. When it returns 0, every buffer holds its
      part of the codeword again, if and only if the packets of lost coding devices that are never written were
      zero. */
  method BitmatrixDecode(k: nat, m: nat, w: nat, bitmatrix: array2<bool>, rowKOnes: bool, erasures: seq<nat>,
                         ptrs: seq<array<bool>>, size: nat, ps: nat, ghost stripes: nat, ghost S: seq<seq<bool>>)
    returns (r: int)
    requires Setting(k, m, w, bitmatrix, ptrs, size, ps, stripes)
    requires forall i | 0 <= i < |erasures| :: erasures[i] < k + m
    requires rowKOnes ==> 0 < m && IdentityRows(w, bitmatrix.Length1, Rows(bitmatrix))
    modifies ptrs
    ensures (r == 0 || r == -1) && (r == -1 ==> Contents(ptrs) == old(Contents(ptrs)))
    ensures forall d | 0 <= d < k + m && d !in erasures :: ptrs[d][..] == old(ptrs[d][..])
    ensures |Elements(erasures)| > m ==> r == -1
    ensures |Elements(erasures)| <= m ==>
      var e := FlagsOf(k + m, erasures);
      |e| == k + m && |Where(e, 0, k + m, false)| >= k &&
      (r == 0 <==> (NeedsInverse(k, e, rowKOnes) ==> BitmatrixDecodable(k, w, bitmatrix.Length1, Rows(bitmatrix), e)))
    ensures r == 0 ==>
      DecodedRight(k, m, w, ps, stripes, bitmatrix.Length1, Rows(bitmatrix), FlagsOf(k + m, erasures), S,
                   old(Contents(ptrs)), Contents(ptrs))
  {
    hide Elements, Where, FlagsOf, Size, Shape, DecodedRight, NeedsInverse, BitmatrixDecodable, IdentityRows, Rows,
         OnlyLostChange;
    var erased := ErasuresToErased(k, m, erasures);
    if erased == null {
      return -1;
    }
    FlagsUnique(erased[..], erasures);
    EnoughSurvive(erased[..], erasures, k, m);
    ghost var e, now := erased[..], Contents(ptrs);
    r := DecodeFlagged(k, m, w, bitmatrix, erased, rowKOnes, ptrs, size, ps, stripes, S);
    OthersKept(e, erasures, now, Contents(ptrs));
  }

  // ---- The same survivors as for decoding by schedule, in another order.

  // The first k devices of ids are among the first k of ids'.
  ghost predicate Listed(k: nat, ids: seq<nat>, ids': seq<nat>)
    requires k <= |ids| && k <= |ids'|
  {
    forall i | 0 <= i < k :: ids[i] in ids'[..k]
  }

  lemma ShownRow(k: nat, m: nat, w: nat, cols: nat, B: seq<seq<bool>>, ids: seq<nat>, ids': seq<nat>, q: nat)
    returns (p: nat)
    requires 0 < w && Shape(k, m, w, cols, |B|) && IsBitmatrix(B, |B|, cols) && k <= |ids| && k <= |ids'| && q < cols
    requires Listed(k, ids, ids')
    ensures p < cols && SurvivorMatrix(w, cols, B, ids)[q] == SurvivorMatrix(w, cols, B, ids')[p]
  {
    hide Pos, Generator, Shape;
    DataDevice(k, m, w, cols, |B|, q);
    assert ids[q / w] in ids'[..k];
    var j :| 0 <= j < k && ids'[j] == ids[q / w];
    DataPosition(k, m, w, cols, |B|, j, q % w);
    p := j * w + q % w;
    DivModUnique(w, j, q % w);
  }

  // Data that the packets of ids' show is shown by any list of the same devices.
  lemma ShownByMore(k: nat, m: nat, w: nat, cols: nat, B: seq<seq<bool>>, ids: seq<nat>, ids': seq<nat>, x: seq<bool>)
    requires 0 < w && Shape(k, m, w, cols, |B|) && IsBitmatrix(B, |B|, cols) && k <= |ids| && k <= |ids'| && |x| == cols
    requires Listed(k, ids, ids')
    requires MatVec(F2, SurvivorMatrix(w, cols, B, ids'), x) == ZeroVec(F2, cols)
    ensures MatVec(F2, SurvivorMatrix(w, cols, B, ids), x) == ZeroVec(F2, cols)
  {
    hide Shape, Dot, Listed, SurvivorMatrix;
    var D, D' := SurvivorMatrix(w, cols, B, ids), SurvivorMatrix(w, cols, B, ids');
    forall q | 0 <= q < cols
      ensures MatVec(F2, D, x)[q] == ZeroVec(F2, cols)[q]
    {
      var p := ShownRow(k, m, w, cols, B, ids, ids', q);
      assert MatVec(F2, D', x)[p] == ZeroVec(F2, cols)[p];
    }
  }

  lemma SameKernel(k: nat, m: nat, w: nat, cols: nat, B: seq<seq<bool>>, ids: seq<nat>, ids': seq<nat>)
    requires 0 < w && Shape(k, m, w, cols, |B|) && IsBitmatrix(B, |B|, cols) && k <= |ids| && k <= |ids'|
    requires Listed(k, ids, ids')
    requires Nonsingular(F2, SurvivorMatrix(w, cols, B, ids), cols)
    ensures Nonsingular(F2, SurvivorMatrix(w, cols, B, ids'), cols)
  {
    hide SurvivorMatrix, Shape, Listed;
    forall x | IsVec(F2, x, cols) && MatVec(F2, SurvivorMatrix(w, cols, B, ids'), x) == ZeroVec(F2, cols)
      ensures x == ZeroVec(F2, cols)
    {
      ShownByMore(k, m, w, cols, B, ids, ids', x);
    }
  }

  // Every device that stands for a data device is among the first k survivors.
  lemma StandInIsFirst(e: seq<bool>, k: nat, i: nat)
    requires Recoverable(e, k) && i < k && |Where(e, 0, |e|, false)| >= k
    ensures StandIn(e, k, i) in FirstSurvivors(e, k)
  {
    hide Where;
    WhereAppend(e, 0, k, |e|, false);
    WhereCounts(e, 0, k);
    WhereAppend(e, 0, i, k, true);
    var data, coding := Where(e, 0, k, false), Where(e, k, |e|, false);
    assert FirstSurvivors(e, k) == (data + coding)[..k];
    if e[i] {
      FirstWhere(e, i, k, true);
      var x := |Where(e, 0, i, true)|;
      assert (data + coding)[..k][|data| + x] == coding[x];
    } else {
      WhereOrdered(e, 0, k, false);
      assert i in data;
      var x :| 0 <= x < |data| && data[x] == i;
      assert (data + coding)[..k][x] == i;
    }
  }

  lemma Enough(e: seq<bool>, k: nat)
    requires Recoverable(e, k)
    ensures |Where(e, 0, |e|, false)| >= k
  {
    WhereAppend(e, 0, k, |e|, false);
    WhereCounts(e, 0, k);
  }

  // Two lists of k different devices, one inside the other, have the same devices.
  lemma SameDevices(a: seq<nat>, b: seq<nat>)
    requires |a| == |b| && NoRepeats(a) && NoRepeats(b) && forall i | 0 <= i < |a| :: a[i] in b
    ensures forall j | 0 <= j < |b| :: b[j] in a
  {
    ElementCount(a);
    ElementCount(b);
    assert Elements(a) <= Elements(b);
    assert Elements(b) == Elements(a) + (Elements(b) - Elements(a));
    forall j | 0 <= j < |b|
      ensures b[j] in a
    {
      assert b[j] in Elements(b);
    }
  }

  /** The survivors' rows in order are nonsingular exactly when the rows of the stand-ins are: the two decoders
      work for the same losses. */
  lemma SameDecodable(k: nat, m: nat, w: nat, cols: nat, B: seq<seq<bool>>, e: seq<bool>)
    requires 0 < w && Shape(k, m, w, cols, |B|) && IsBitmatrix(B, |B|, cols) && |e| == k + m && Recoverable(e, k)
    ensures |Where(e, 0, |e|, false)| >= k
    ensures BitmatrixDecodable(k, w, cols, B, e) <==> Decodable(w, k, cols, B, e)
  {
    hide Shape, Recoverable, SurvivorMatrix, Nonsingular, Where, StandIn;
    Enough(e, k);
    var ids, firsts := RowIds(e, k), FirstSurvivors(e, k);
    RowIdsDistinct(e, k);
    WhereOrdered(e, 0, |e|, false);
    forall i | 0 <= i < k
      ensures ids[i] in firsts
    {
      StandInIsFirst(e, k, i);
    }
    SameDevices(ids[..k], firsts);
    assert firsts[..k] == firsts;
    if Decodable(w, k, cols, B, e) {
      SameKernel(k, m, w, cols, B, ids, firsts);
    }
    if BitmatrixDecodable(k, w, cols, B, e) {
      SameKernel(k, m, w, cols, B, firsts, ids);
    }
  }
}

/** Recovering one device at a time with rows of a bitmatrix: through the inverse of the survivors' rows, through
    the parity device when its rows are identities, or from the data. */
module BitmatrixRecovery {
  import opened Arithmetic
  import opened Fields
  import opened LinearAlgebra
  import opened Schedules
  import opened Buffers
  import opened Encoders
  import opened DecodingTheory
  import opened ScheduledDecoding
  import opened DecodingLimits
  import opened Codewords
  import opened Recovery
  import opened DotRecovery
  import opened SourceDevices
  import opened MatrixDecoding
  import RaidSix

  // ---- Rows that recover a device from others.

  ghost predicate RecoversPacket(w: nat, cols: nat, B: seq<seq<bool>>, R: seq<seq<bool>>, first: nat, ids: seq<nat>,
                                 d: nat, y: nat)
    requires 0 < w && IsBitmatrix(B, |B|, cols) && first + y < |R|
  {
    Recovers(cols, SurvivorMatrix(w, cols, B, ids), R[first + y], Generator(cols, B, Pos(w, d, y)))
  }

  // Rows first, first + 1, ... of R recover the packets of device d from the devices ids.
  ghost predicate RecoversDevice(w: nat, cols: nat, B: seq<seq<bool>>, R: seq<seq<bool>>, first: nat, ids: seq<nat>,
                                 d: nat)
    requires 0 < w && IsBitmatrix(B, |B|, cols)
  {
    && IsBitmatrix(R, |R|, cols) && first + w <= |R|
    && forall y | 0 <= y < w :: RecoversPacket(w, cols, B, R, first, ids, d, y)
  }

  // The inverse of the survivors' rows recovers every data device.
  lemma InverseDevice(k: nat, m: nat, w: nat, cols: nat, B: seq<seq<bool>>, ids: seq<nat>, inverse: seq<seq<bool>>,
                      d: nat, first: nat)
    requires 0 < w && Shape(k, m, w, cols, |B|) && IsBitmatrix(B, |B|, cols) && d < k && first == Pos(w, d, 0)
    requires IsMatrix(F2, inverse, cols, cols) && Inverses(F2, SurvivorMatrix(w, cols, B, ids), inverse, cols)
    ensures RecoversDevice(w, cols, B, inverse, first, ids, d)
  {
    hide Shape, Pos, SurvivorMatrix, Inverses;
    DeviceFits(k, m, w, cols, |B|, d);
    forall y | 0 <= y < w
      ensures RecoversPacket(w, cols, B, inverse, first, ids, d, y)
    {
      InversePacket(w, cols, B, ids, inverse, d, first, y);
    }
  }

  lemma InversePacket(w: nat, cols: nat, B: seq<seq<bool>>, ids: seq<nat>, inverse: seq<seq<bool>>, d: nat, first: nat,
                      y: nat)
    requires 0 < w && IsBitmatrix(B, |B|, cols) && first == Pos(w, d, 0) && first + y < cols
    requires IsMatrix(F2, inverse, cols, cols) && Inverses(F2, SurvivorMatrix(w, cols, B, ids), inverse, cols)
    ensures RecoversPacket(w, cols, B, inverse, first, ids, d, y)
  {
    hide Pos, SurvivorMatrix, Inverses, Recovers;
    PosStep(w, d, y);
    InverseRecovers(cols, SurvivorMatrix(w, cols, B, ids), inverse, first + y);
  }

  lemma DeviceFits(k: nat, m: nat, w: nat, cols: nat, rows: nat, d: nat)
    requires Shape(k, m, w, cols, rows) && d < k
    ensures Pos(w, d, 0) + w <= cols
  {
    MulNext(d, k, w);
  }

  // A coding device is recovered from the data by its own rows.
  lemma CodingDevice(k: nat, m: nat, w: nat, cols: nat, B: seq<seq<bool>>, d: nat, first: nat)
    requires 0 < w && Shape(k, m, w, cols, |B|) && IsBitmatrix(B, |B|, cols) && k <= d < k + m
    requires Column(w, d - k, 0, first)
    ensures RecoversDevice(w, cols, B, B, first, Range(k), d)
    ensures forall y | 0 <= y < w :: B[first + y] == Generator(cols, B, Pos(w, d, y))
  {
    hide Shape, Pos, Column, SurvivorMatrix;
    DriveRows(k, m, w, cols, |B|, d, first);
    var D := SurvivorMatrix(w, cols, B, Range(k));
    F2Valid();
    forall q | 0 <= q < cols
      ensures D[q] == UnitVec(F2, cols, q)
    {
      DataUnit(k, m, w, cols, B, q);
    }
    forall y | 0 <= y < w
      ensures RecoversPacket(w, cols, B, B, first, Range(k), d, y) && B[first + y] == Generator(cols, B, Pos(w, d, y))
    {
      GeneratorRow(k, m, w, cols, B, d, y, first);
      forall x | |x| == cols
        ensures RecoversAt(cols, D, B[first + y], B[first + y], x)
      {
        AllUnits(cols, D, x);
      }
    }
  }

  lemma DataUnit(k: nat, m: nat, w: nat, cols: nat, B: seq<seq<bool>>, q: nat)
    requires 0 < w && Shape(k, m, w, cols, |B|) && IsBitmatrix(B, |B|, cols) && q < cols
    ensures SurvivorMatrix(w, cols, B, Range(k))[q] == UnitVec(F2, cols, q)
  {
    DataDevice(k, m, w, cols, |B|, q);
    PosOf(w, q);
  }

  lemma AllUnits(cols: nat, D: seq<seq<bool>>, d: seq<bool>)
    requires IsMatrix(F2, D, cols, cols) && |d| == cols && forall q | 0 <= q < cols :: D[q] == UnitVec(F2, cols, q)
    ensures MatVec(F2, D, d) == d
  {
    F2Valid();
    forall q | 0 <= q < cols
      ensures MatVec(F2, D, d)[q] == d[q]
    {
      DotUnit(F2, d, q);
    }
  }

  // ---- The parity device.

  // The rows of the first coding device are identities.
  ghost predicate IdentityRows(w: nat, cols: nat, B: seq<seq<bool>>)
    requires 0 < w && IsBitmatrix(B, |B|, cols)
  {
    w <= |B| && forall r, c | 0 <= r < w && 0 <= c < cols :: B[r][c] == (c % w == r)
  }

  // Packet y of each of the first n blocks.
  ghost function Strided(w: nat, y: nat, n: nat, x: seq<bool>): (v: seq<bool>)
    ensures |v| == n
  {
    seq(n, i requires 0 <= i < n => Pos(w, i, y) < |x| && x[Pos(w, i, y)])
  }

  lemma BlockUnit(w: nat, cols: nat, B: seq<seq<bool>>, y: nat, i: nat, first: nat)
    requires 0 < w && IsBitmatrix(B, |B|, cols) && IdentityRows(w, cols, B) && y < w && first == Pos(w, i, 0)
    requires first + w <= cols
    ensures RaidSix.Part(B[y], first, w) == UnitVec(F2, w, y)
  {
    forall t | 0 <= t < w
      ensures RaidSix.Part(B[y], first, w)[t] == UnitVec(F2, w, y)[t]
    {
      DivModUnique(w, i, t);
    }
  }

  // One block of an identity row picks its packet.
  lemma IdentityBlock(k: nat, m: nat, w: nat, cols: nat, B: seq<seq<bool>>, y: nat, x: seq<bool>, i: nat, first: nat)
    requires 0 < w && Shape(k, m, w, cols, |B|) && IsBitmatrix(B, |B|, cols) && IdentityRows(w, cols, B) && y < w
    requires |x| == cols
    requires i < k && first == Pos(w, i, 0)
    ensures first + w == Pos(w, i + 1, 0) <= cols && Pos(w, i, y) < cols
    ensures DotTo(F2, B[y], x, first + w) == (DotTo(F2, B[y], x, first) != x[Pos(w, i, y)])
  {
    DeviceFits(k, m, w, cols, |B|, i);
    PosNext(w, i, y);
    BlockUnit(w, cols, B, y, i, first);
    hide Shape, Pos, IdentityRows;
    RaidSix.DotShift(B[y], x, first, w, w);
    F2Valid();
    DotUnit(F2, RaidSix.Part(x, first, w), y);
  }

  // An identity row adds up one packet of every device.
  lemma {:induction false} IdentityDot(k: nat, m: nat, w: nat, cols: nat, B: seq<seq<bool>>, y: nat, x: seq<bool>,
                                       n: nat)
    requires 0 < w && Shape(k, m, w, cols, |B|) && IsBitmatrix(B, |B|, cols) && IdentityRows(w, cols, B) && y < w
    requires |x| == cols && n <= k
    ensures Pos(w, n, 0) <= cols
    ensures DotTo(F2, B[y], x, Pos(w, n, 0)) == DotTo(F2, seq(k, i => true), Strided(w, y, k, x), n)
  {
    hide Shape, IdentityRows;
    if n > 0 {
      IdentityDot(k, m, w, cols, B, y, x, n - 1);
      IdentityBlock(k, m, w, cols, B, y, x, n - 1, Pos(w, n - 1, 0));
      hide Pos;
      assert Strided(w, y, k, x)[n - 1] == x[Pos(w, n - 1, y)];
    }
  }

  lemma PosNext(w: nat, d: nat, y: nat)
    ensures Pos(w, d + 1, 0) == Pos(w, d, 0) + w && Pos(w, d, y) == Pos(w, d, 0) + y
  {
  }

  // What the data devices but one and the parity device show, seen at packet y.
  lemma SkipStrides(k: nat, m: nat, w: nat, cols: nat, B: seq<seq<bool>>, lost: nat, y: nat, d: seq<bool>)
    requires 0 < w && 0 < m && Shape(k, m, w, cols, |B|) && IsBitmatrix(B, |B|, cols) && IdentityRows(w, cols, B)
    requires lost < k && y < w && |d| == cols
    ensures var v := MatVec(F2, SurvivorMatrix(w, cols, B, SkipIds(k, lost)), d);
      && Skips(Strided(w, y, k, d), Strided(w, y, k, v), lost, k - 1)
      && Strided(w, y, k, v)[k - 1] == Dot(F2, B[y], d)
      && Strided(w, y, k, d)[lost] == Dot(F2, Generator(cols, B, Pos(w, lost, y)), d)
  {
    hide Shape, Dot, SkipIds;
    F2Valid();
    var ids := SkipIds(k, lost);
    var v := MatVec(F2, SurvivorMatrix(w, cols, B, ids), d);
    forall i | 0 <= i < k
      ensures Pos(w, i, y) < cols && Strided(w, y, k, v)[i] == Dot(F2, Generator(cols, B, Pos(w, ids[i], y)), d)
    {
      StridedSurvivor(k, m, w, cols, B, ids, i, y, d);
    }
    forall i | 0 <= i < k
      ensures Strided(w, y, k, d)[i] == Dot(F2, Generator(cols, B, Pos(w, i, y)), d)
    {
      DataBound(k, m, w, cols, |B|, i, y);
      DotUnit(F2, d, Pos(w, i, y));
    }
    ParityRow(k, m, w, cols, B, y);
  }

  lemma StridedSurvivor(k: nat, m: nat, w: nat, cols: nat, B: seq<seq<bool>>, ids: seq<nat>, i: nat, y: nat,
                        d: seq<bool>)
    requires 0 < w && Shape(k, m, w, cols, |B|) && IsBitmatrix(B, |B|, cols) && i < k == |ids| && y < w && |d| == cols
    ensures Pos(w, i, y) < cols
    ensures MatVec(F2, SurvivorMatrix(w, cols, B, ids), d)[Pos(w, i, y)] ==
      Dot(F2, Generator(cols, B, Pos(w, ids[i], y)), d)
  {
    DataBound(k, m, w, cols, |B|, i, y);
    DivModUnique(w, i, y);
  }

  lemma ParityRow(k: nat, m: nat, w: nat, cols: nat, B: seq<seq<bool>>, y: nat)
    requires 0 < w && 0 < m && Shape(k, m, w, cols, |B|) && IsBitmatrix(B, |B|, cols) && y < w
    ensures y < |B| && Generator(cols, B, Pos(w, k, y)) == B[y]
  {
    ColumnStart(w, 0, 0);
    GeneratorRow(k, m, w, cols, B, k, y, 0);
  }

  /** Identity rows recover the one device left out. */
  lemma ParityDevice(k: nat, m: nat, w: nat, cols: nat, B: seq<seq<bool>>, lost: nat)
    requires 0 < w && 0 < m && Shape(k, m, w, cols, |B|) && IsBitmatrix(B, |B|, cols) && IdentityRows(w, cols, B)
    requires lost < k
    ensures RecoversDevice(w, cols, B, B, 0, SkipIds(k, lost), lost)
  {
    hide Shape, Dot, SkipIds, Pos, Generator, Strided;
    var D := SurvivorMatrix(w, cols, B, SkipIds(k, lost));
    forall y | 0 <= y < w
      ensures RecoversPacket(w, cols, B, B, 0, SkipIds(k, lost), lost, y)
    {
      forall d | |d| == cols
        ensures RecoversAt(cols, D, B[y], Generator(cols, B, Pos(w, lost, y)), d)
      {
        ParityPacket(k, m, w, cols, B, lost, y, d);
      }
    }
  }

  lemma ParityPacket(k: nat, m: nat, w: nat, cols: nat, B: seq<seq<bool>>, lost: nat, y: nat, d: seq<bool>)
    requires 0 < w && 0 < m && Shape(k, m, w, cols, |B|) && IsBitmatrix(B, |B|, cols) && IdentityRows(w, cols, B)
    requires lost < k && y < w && |d| == cols
    ensures Dot(F2, B[y], MatVec(F2, SurvivorMatrix(w, cols, B, SkipIds(k, lost)), d)) ==
      Dot(F2, Generator(cols, B, Pos(w, lost, y)), d)
  {
    var v := MatVec(F2, SurvivorMatrix(w, cols, B, SkipIds(k, lost)), d);
    var ones, X, Y := seq(k, i => true), Strided(w, y, k, d), Strided(w, y, k, v);
    F2Valid();
    SkipStrides(k, m, w, cols, B, lost, y, d);
    IdentityDot(k, m, w, cols, B, y, d, k);
    IdentityDot(k, m, w, cols, B, y, v, k);
    AllColumns(k, m, w, cols, |B|);
    hide Shape, SurvivorMatrix, Strided, Pos, Generator, SkipIds, IdentityRows;
    assert Dot(F2, ones, X) == Dot(F2, B[y], d) && Dot(F2, ones, Y) == Dot(F2, B[y], v);
    SumWithout(F2, ones, X, Y, lost, k - 1);
    CancelLast(F2, ones, Y, k, X[lost]);
  }

  lemma AllColumns(k: nat, m: nat, w: nat, cols: nat, rows: nat)
    requires Shape(k, m, w, cols, rows)
    ensures Pos(w, k, 0) == cols
  {
  }

  // ---- What decoding leaves.

  // Bit i of device d belongs to a packet that is zero whatever the data.
  ghost predicate BlankBit(w: nat, ps: nat, cols: nat, B: seq<seq<bool>>, d: nat, i: nat)
    requires 0 < w && 0 < ps && IsBitmatrix(B, |B|, cols)
  {
    Ones(Generator(cols, B, Pos(w, d, i % Stride(w, ps) / ps)), cols) == 0
  }

  /** Everything is as it was, but for the packets of lost coding devices that are never written. */
  ghost function Kept(w: nat, ps: nat, k: nat, cols: nat, B: seq<seq<bool>>, e: seq<bool>, S: seq<seq<bool>>,
                      now: seq<seq<bool>>): (X: seq<seq<bool>>)
    requires 0 < w && 0 < ps && IsBitmatrix(B, |B|, cols) && |e| == |S| == |now|
    requires forall d | 0 <= d < |S| :: |S[d]| == |now[d]|
    ensures |X| == |S| && forall d | 0 <= d < |X| :: |X[d]| == |S[d]|
  {
    seq(|S|, d requires 0 <= d < |S| =>
      if k <= d && e[d] then
        seq(|S[d]|, i requires 0 <= i < |S[d]| => if BlankBit(w, ps, cols, B, d, i) then now[d][i] else S[d][i])
      else S[d])
  }

  lemma KeptAt(w: nat, ps: nat, stripes: nat, k: nat, cols: nat, B: seq<seq<bool>>, e: seq<bool>, S: seq<seq<bool>>,
               now: seq<seq<bool>>, d: nat, t: nat, y: nat, b: nat)
    requires 0 < w && 0 < ps && IsBitmatrix(B, |B|, cols) && |e| == |S| == |now| && d < |S| && t < stripes && y < w
    requires b < ps
    requires Sized(S, |S|, Size(w, ps, stripes)) && Sized(now, |S|, Size(w, ps, stripes))
    ensures At(w, ps, t, y, b) < Size(w, ps, stripes)
    ensures Kept(w, ps, k, cols, B, e, S, now)[d][At(w, ps, t, y, b)] ==
      if k <= d && e[d] && Ones(Generator(cols, B, Pos(w, d, y)), cols) == 0 then now[d][At(w, ps, t, y, b)]
      else S[d][At(w, ps, t, y, b)]
  {
    hide At, Size, Pos, Generator, Ones;
    AtBound(w, ps, stripes, t, y, b);
    AtParts(w, ps, w * ps, t, y, b);
  }

  // What a codeword holds in one packet.
  lemma CodewordBit(k: nat, m: nat, w: nat, ps: nat, stripes: nat, cols: nat, B: seq<seq<bool>>, S: seq<seq<bool>>,
                    d: nat, t: nat, y: nat, b: nat)
    requires 0 < w && Shape(k, m, w, cols, |B|) && IsBitmatrix(B, |B|, cols)
    requires CodewordBuffers(w, ps, stripes, cols, B, S)
    requires Sized(S, k + m, Size(w, ps, stripes)) && d < k + m && t < stripes && y < w && b < ps
    ensures At(w, ps, t, y, b) < Size(w, ps, stripes)
    ensures S[d][At(w, ps, t, y, b)] ==
      Dot(F2, Generator(cols, B, Pos(w, d, y)), View(w, ps, cols + |B|, S, t, b)[..cols])
  {
    hide Shape, At, Size, View, Codeword, Dot, Pos, Generator;
    AllPackets(k, m, w, cols, |B|);
    assert CodewordAt(w, ps, cols, B, S, t, b);
    ShownAt(w, ps, cols + |B|, stripes, S, t, b, d, y);
    CodewordPacket(cols, B, View(w, ps, cols + |B|, S, t, b), Pos(w, d, y));
  }

  /** That is the codeword if and only if those packets were zero. */
  lemma KeptIsRight(k: nat, m: nat, w: nat, ps: nat, stripes: nat, cols: nat, B: seq<seq<bool>>, e: seq<bool>,
                    S: seq<seq<bool>>, now: seq<seq<bool>>)
    requires 0 < w && 0 < ps && Shape(k, m, w, cols, |B|) && IsBitmatrix(B, |B|, cols) && |e| == k + m
    requires CodewordBuffers(w, ps, stripes, cols, B, S) && Sized(S, k + m, Size(w, ps, stripes))
    requires Sized(now, k + m, Size(w, ps, stripes))
    ensures Kept(w, ps, k, cols, B, e, S, now) == S <==> ClearBuffers(w, ps, stripes, k, cols, B, e, now)
  {
    hide Shape, At, Size, View, Dot, Pos, Generator, Ones, CodewordBuffers, Kept;
    var X := Kept(w, ps, k, cols, B, e, S, now);
    if X == S {
      forall d, y, t, b | k <= d < |e| && e[d] && 0 <= y < w && 0 <= t < stripes && 0 <= b < ps
        ensures ClearAt(w, ps, cols, B, now, d, y, t, b)
      {
        KeptBit(k, m, w, ps, stripes, cols, B, e, S, now, d, t, y, b);
      }
    }
    if ClearBuffers(w, ps, stripes, k, cols, B, e, now) {
      forall d, i | 0 <= d < |S| && 0 <= i < |S[d]|
        ensures X[d][i] == S[d][i]
      {
        var t, y, b := AtCovers(w, ps, stripes, i);
        KeptBit(k, m, w, ps, stripes, cols, B, e, S, now, d, t, y, b);
        assert k <= d && e[d] ==> ClearAt(w, ps, cols, B, now, d, y, t, b);
      }
      assert forall d | 0 <= d < |S| :: X[d] == S[d];
    }
  }

  lemma KeptBit(k: nat, m: nat, w: nat, ps: nat, stripes: nat, cols: nat, B: seq<seq<bool>>, e: seq<bool>,
                S: seq<seq<bool>>, now: seq<seq<bool>>, d: nat, t: nat, y: nat, b: nat)
    requires 0 < w && 0 < ps && Shape(k, m, w, cols, |B|) && IsBitmatrix(B, |B|, cols) && |e| == k + m && d < k + m
    requires t < stripes && y < w && b < ps
    requires CodewordBuffers(w, ps, stripes, cols, B, S) && Sized(S, k + m, Size(w, ps, stripes))
    requires Sized(now, k + m, Size(w, ps, stripes))
    ensures At(w, ps, t, y, b) < Size(w, ps, stripes)
    ensures var i, X := At(w, ps, t, y, b), Kept(w, ps, k, cols, B, e, S, now);
      if k <= d && e[d] && Ones(Generator(cols, B, Pos(w, d, y)), cols) == 0 then X[d][i] == now[d][i] && !S[d][i]
      else X[d][i] == S[d][i]
  {
    hide Shape, At, Size, View, Pos, Generator, Kept, CodewordBuffers, Dot, DotTo;
    KeptAt(w, ps, stripes, k, cols, B, e, S, now, d, t, y, b);
    var g := Generator(cols, B, Pos(w, d, y));
    if Ones(g, cols) == 0 {
      CodewordBit(k, m, w, ps, stripes, cols, B, S, d, t, y, b);
      BlankDot(g, View(w, ps, cols + |B|, S, t, b)[..cols], cols);
    }
  }

  // ---- One product.

  // The sources hold what they should: then so does what is read.
  lemma SameSources(w: nat, ps: nat, stripes: nat, n: nat, cols: nat, ids: seq<nat>, S: seq<seq<bool>>,
                    T: seq<seq<bool>>, t: nat, b: nat)
    requires 0 < w && n == |S| * w && |S| == |T| && cols == |ids| * w && t < stripes && b < ps
    requires Sized(S, |S|, Size(w, ps, stripes)) && Sized(T, |S|, Size(w, ps, stripes))
    requires forall x | 0 <= x < |ids| :: ids[x] < |S| && T[ids[x]] == S[ids[x]]
    ensures Arranged(w, cols, ids, View(w, ps, n, T, t, b)) == Arranged(w, cols, ids, View(w, ps, n, S, t, b))
  {
    hide At, Size, View, Pos;
    forall q | 0 <= q < cols
      ensures Arranged(w, cols, ids, View(w, ps, n, T, t, b))[q] == Arranged(w, cols, ids, View(w, ps, n, S, t, b))[q]
    {
      DeviceBound(w, |ids|, q);
      ShownAt(w, ps, n, stripes, S, t, b, ids[q / w], q % w);
      ShownAt(w, ps, n, stripes, T, t, b, ids[q / w], q % w);
    }
  }

  // The devices a product is taken over and onto, in the state T of decoding.
  ghost predicate Sound(k: nat, m: nat, e: seq<bool>, ids: seq<nat>, d: nat) {
    && |ids| == k && |e| == k + m && d < k + m && e[d] && d !in ids
    && forall x | 0 <= x < k :: ids[x] < k + m && (!e[ids[x]] || (ids[x] < k && ids[x] < d))
  }

  // A row that recovers packet y of device d from what is read gives that packet.
  lemma RecoveredBit(k: nat, m: nat, w: nat, ps: nat, stripes: nat, n: nat, cols: nat, B: seq<seq<bool>>,
                     R: seq<seq<bool>>, first: nat, ids: seq<nat>, S: seq<seq<bool>>, T: seq<seq<bool>>, d: nat, t: nat,
                     y: nat, b: nat)
    requires 0 < w && Shape(k, m, w, cols, |B|) && IsBitmatrix(B, |B|, cols)
    requires CodewordBuffers(w, ps, stripes, cols, B, S)
    requires n == cols + |B| == (k + m) * w && cols == k * w && t < stripes && y < w && b < ps && d < k + m
    requires Sized(S, k + m, Size(w, ps, stripes)) && Sized(T, k + m, Size(w, ps, stripes))
    requires |ids| == k && forall x | 0 <= x < k :: ids[x] < k + m && T[ids[x]] == S[ids[x]]
    requires IsBitmatrix(R, |R|, cols) && first + w <= |R| && RecoversPacket(w, cols, B, R, first, ids, d, y)
    ensures At(w, ps, t, y, b) < Size(w, ps, stripes)
    ensures Dot(F2, R[first + y], Arranged(w, cols, ids, View(w, ps, n, T, t, b))) == S[d][At(w, ps, t, y, b)]
  {
    hide Shape, At, Size, View, Dot, Pos, Generator, Arranged, SurvivorMatrix, Codeword;
    var C := View(w, ps, n, S, t, b);
    assert CodewordAt(w, ps, cols, B, S, t, b);
    SameSources(w, ps, stripes, n, cols, ids, S, T, t, b);
    CodewordBit(k, m, w, ps, stripes, cols, B, S, d, t, y, b);
    RecoveredPacket(k, m, w, cols, B, R, first, ids, d, y, C);
  }

  // The same for the packets of one codeword.
  lemma RecoveredPacket(k: nat, m: nat, w: nat, cols: nat, B: seq<seq<bool>>, R: seq<seq<bool>>, first: nat,
                        ids: seq<nat>, d: nat, y: nat, C: seq<bool>)
    requires 0 < w && Shape(k, m, w, cols, |B|) && IsBitmatrix(B, |B|, cols) && Codeword(cols, B, C)
    requires |ids| == k && forall x | 0 <= x < k :: ids[x] < k + m
    requires IsBitmatrix(R, |R|, cols) && first + y < |R| && RecoversPacket(w, cols, B, R, first, ids, d, y)
    ensures |C| == cols + |B|
    ensures Dot(F2, R[first + y], Arranged(w, cols, ids, C)) == Dot(F2, Generator(cols, B, Pos(w, d, y)), C[..cols])
  {
    hide Shape, Dot, Pos, Generator, Arranged, SurvivorMatrix;
    ReadPackets(k, m, w, cols, B, ids, cols, C);
    assert RecoversAt(cols, SurvivorMatrix(w, cols, B, ids), R[first + y], Generator(cols, B, Pos(w, d, y)), C[..cols]);
    assert Arranged(w, cols, ids, C)[..cols] == Arranged(w, cols, ids, C);
  }

  lemma ShapeCols(k: nat, m: nat, w: nat, cols: nat, rows: nat)
    requires Shape(k, m, w, cols, rows)
    ensures cols == k * w
  {
  }

  // What is being decoded: the devices before n are done.
  ghost predicate Standing(k: nat, m: nat, w: nat, ps: nat, stripes: nat, cols: nat, B: seq<seq<bool>>, e: seq<bool>,
                           S: seq<seq<bool>>, now: seq<seq<bool>>, T: seq<seq<bool>>, n: nat)
  {
    && 0 < w && 0 < ps && Shape(k, m, w, cols, |B|) && IsBitmatrix(B, |B|, cols) && |e| == k + m
    && CodewordBuffers(w, ps, stripes, cols, B, S)
    && Sized(S, k + m, Size(w, ps, stripes)) && Sized(now, k + m, Size(w, ps, stripes))
    && Sized(T, k + m, Size(w, ps, stripes))
    && Restored(e, Kept(w, ps, k, cols, B, e, S, now), now, T, n)
  }

  // Sources that survived, or are restored data devices, are right.
  lemma SoundSources(k: nat, m: nat, w: nat, ps: nat, stripes: nat, cols: nat, B: seq<seq<bool>>, e: seq<bool>,
                     S: seq<seq<bool>>, now: seq<seq<bool>>, T: seq<seq<bool>>, ids: seq<nat>, d: nat)
    requires Standing(k, m, w, ps, stripes, cols, B, e, S, now, T, d) && Sound(k, m, e, ids, d)
    ensures forall x | 0 <= x < k :: T[ids[x]] == S[ids[x]]
    ensures T[d] == now[d]
  {
  }

  // Bit (t, y, b) of the device that is written: what the codeword has there, unless the row is zero.
  lemma StepValue(k: nat, m: nat, w: nat, ps: nat, stripes: nat, n: nat, cols: nat, B: seq<seq<bool>>,
                  R: seq<seq<bool>>, first: nat, ids: seq<nat>, S: seq<seq<bool>>, T: seq<seq<bool>>, d: nat, t: nat,
                  y: nat, b: nat)
    requires 0 < w && Shape(k, m, w, cols, |B|) && IsBitmatrix(B, |B|, cols)
    requires CodewordBuffers(w, ps, stripes, cols, B, S)
    requires n == cols + |B| == (k + m) * w && cols == k * w && t < stripes && y < w && b < ps && d < k + m
    requires Sized(S, k + m, Size(w, ps, stripes)) && Sized(T, k + m, Size(w, ps, stripes))
    requires |ids| == k && d !in ids && forall x | 0 <= x < k :: ids[x] < k + m && T[ids[x]] == S[ids[x]]
    requires IsBitmatrix(R, |R|, cols) && first + w <= |R| && RecoversPacket(w, cols, B, R, first, ids, d, y)
    ensures At(w, ps, t, y, b) < Size(w, ps, stripes)
    ensures RunStripes(w, ps, T, stripes, DeviceOps(w, R, first, ids, d, w))[d][At(w, ps, t, y, b)] ==
      if Ones(R[first + y], cols) > 0 then S[d][At(w, ps, t, y, b)] else T[d][At(w, ps, t, y, b)]
  {
    hide Shape, At, Size, View, Dot, Arranged, CodewordBuffers, RunStripes, DeviceOps, RecoversPacket;
    RecoveredBit(k, m, w, ps, stripes, n, cols, B, R, first, ids, S, T, d, t, y, b);
    DotDevice(w, ps, stripes, n, cols, R, first, ids, d, T, t, y, b, d);
  }

  // A zero row can only be that of a blank packet of a coding device.
  lemma StepRow(k: nat, m: nat, w: nat, cols: nat, B: seq<seq<bool>>, R: seq<seq<bool>>, first: nat, ids: seq<nat>,
                d: nat, y: nat)
    requires 0 < w && Shape(k, m, w, cols, |B|) && IsBitmatrix(B, |B|, cols) && y < w
    requires IsBitmatrix(R, |R|, cols) && first + w <= |R| && RecoversPacket(w, cols, B, R, first, ids, d, y)
    requires d >= k ==> R[first + y] == Generator(cols, B, Pos(w, d, y))
    ensures Ones(R[first + y], cols) > 0 <==> !(d >= k && Ones(Generator(cols, B, Pos(w, d, y)), cols) == 0)
  {
    hide Shape, Pos, Generator, SurvivorMatrix, Recovers;
    var g := Generator(cols, B, Pos(w, d, y));
    if d < k {
      DataGenerator(k, m, w, cols, B, d, y);
      RecoversNonzero(cols, SurvivorMatrix(w, cols, B, ids), R[first + y], g);
    }
  }

  lemma StepBit(k: nat, m: nat, w: nat, ps: nat, stripes: nat, n: nat, cols: nat, B: seq<seq<bool>>, e: seq<bool>,
                R: seq<seq<bool>>, first: nat, ids: seq<nat>, S: seq<seq<bool>>, now: seq<seq<bool>>, T: seq<seq<bool>>,
                d: nat, t: nat, y: nat, b: nat)
    requires Standing(k, m, w, ps, stripes, cols, B, e, S, now, T, d) && Sound(k, m, e, ids, d)
    requires n == cols + |B| == (k + m) * w && cols == k * w && t < stripes && y < w && b < ps
    requires RecoversDevice(w, cols, B, R, first, ids, d)
    requires d >= k ==> forall y | 0 <= y < w :: R[first + y] == Generator(cols, B, Pos(w, d, y))
    ensures At(w, ps, t, y, b) < Size(w, ps, stripes)
    ensures RunStripes(w, ps, T, stripes, DeviceOps(w, R, first, ids, d, w))[d][At(w, ps, t, y, b)] ==
      Kept(w, ps, k, cols, B, e, S, now)[d][At(w, ps, t, y, b)]
  {
    hide Shape, At, Size, Pos, Generator, Kept, CodewordBuffers, RunStripes, DeviceOps, Restored, RecoversPacket;
    SoundSources(k, m, w, ps, stripes, cols, B, e, S, now, T, ids, d);
    assert RecoversPacket(w, cols, B, R, first, ids, d, y);
    StepValue(k, m, w, ps, stripes, n, cols, B, R, first, ids, S, T, d, t, y, b);
    StepRow(k, m, w, cols, B, R, first, ids, d, y);
    KeptAt(w, ps, stripes, k, cols, B, e, S, now, d, t, y, b);
  }

  lemma DataGenerator(k: nat, m: nat, w: nat, cols: nat, B: seq<seq<bool>>, d: nat, y: nat)
    requires 0 < w && Shape(k, m, w, cols, |B|) && IsBitmatrix(B, |B|, cols) && d < k && y < w
    ensures Ones(Generator(cols, B, Pos(w, d, y)), cols) > 0
  {
    GeneratorRow(k, m, w, cols, B, d, y, 0);
    UnitHasOne(cols, Pos(w, d, y), cols);
  }

  // One bit of any device after the product.
  lemma StepAny(k: nat, m: nat, w: nat, ps: nat, stripes: nat, n: nat, cols: nat, B: seq<seq<bool>>, e: seq<bool>,
                R: seq<seq<bool>>, first: nat, ids: seq<nat>, S: seq<seq<bool>>, now: seq<seq<bool>>, T: seq<seq<bool>>,
                d: nat, c: nat, i: nat)
    requires Standing(k, m, w, ps, stripes, cols, B, e, S, now, T, d) && Sound(k, m, e, ids, d)
    requires n == cols + |B| == (k + m) * w && cols == k * w && c < k + m && i < Size(w, ps, stripes)
    requires RecoversDevice(w, cols, B, R, first, ids, d)
    requires d >= k ==> forall y | 0 <= y < w :: R[first + y] == Generator(cols, B, Pos(w, d, y))
    ensures RunStripes(w, ps, T, stripes, DeviceOps(w, R, first, ids, d, w))[c][i] ==
      if c == d then Kept(w, ps, k, cols, B, e, S, now)[d][i] else T[c][i]
  {
    hide Shape, At, Size, Pos, Generator, Kept, CodewordBuffers, RunStripes, DeviceOps, RecoversPacket, Restored;
    var t, y, b := AtCovers(w, ps, stripes, i);
    if c == d {
      StepBit(k, m, w, ps, stripes, n, cols, B, e, R, first, ids, S, now, T, d, t, y, b);
    } else {
      DotDevice(w, ps, stripes, n, cols, R, first, ids, d, T, t, y, b, c);
    }
  }

  /** One product with rows that recover device d makes it what it should be, and changes nothing else. */
  lemma StandingStep(k: nat, m: nat, w: nat, ps: nat, stripes: nat, cols: nat, B: seq<seq<bool>>, e: seq<bool>,
                     R: seq<seq<bool>>, first: nat, ids: seq<nat>, S: seq<seq<bool>>, now: seq<seq<bool>>,
                     T: seq<seq<bool>>, d: nat)
    requires Standing(k, m, w, ps, stripes, cols, B, e, S, now, T, d) && Sound(k, m, e, ids, d)
    requires RecoversDevice(w, cols, B, R, first, ids, d)
    requires d >= k ==> forall y | 0 <= y < w :: R[first + y] == Generator(cols, B, Pos(w, d, y))
    ensures Standing(k, m, w, ps, stripes, cols, B, e, S, now,
                     RunStripes(w, ps, T, stripes, DeviceOps(w, R, first, ids, d, w)), d + 1)
  {
    AllPackets(k, m, w, cols, |B|);
    ShapeCols(k, m, w, cols, |B|);
    hide Shape, Size, Generator, Kept, CodewordBuffers, RunStripes, DeviceOps, RecoversDevice, Sound;
    var T', X := RunStripes(w, ps, T, stripes, DeviceOps(w, R, first, ids, d, w)), Kept(w, ps, k, cols, B, e, S, now);
    SoundDevice(k, m, e, ids, d);
    forall c | 0 <= c < k + m
      ensures T'[c] == if c == d then X[d] else T[c]
    {
      forall i | 0 <= i < Size(w, ps, stripes)
        ensures T'[c][i] == if c == d then X[d][i] else T[c][i]
      {
        StepAny(k, m, w, ps, stripes, cols + |B|, cols, B, e, R, first, ids, S, now, T, d, c, i);
      }
    }
  }

  lemma SoundDevice(k: nat, m: nat, e: seq<bool>, ids: seq<nat>, d: nat)
    requires Sound(k, m, e, ids, d)
    ensures |e| == k + m && d < k + m && e[d]
  {
  }
}

/** What jerasure_bitmatrix_dotprod makes of a device, and when that is what the device held. */
module DotRecovery {
  import opened Arithmetic
  import opened Fields
  import opened LinearAlgebra
  import opened Schedules
  import opened Buffers
  import opened Encoders
  import opened DecodingTheory

  // ---- On the packets of one stripe and bit.

  lemma SourcePacket(w: nat, devs: nat, n: nat, ids: seq<nat>, dest: nat, j: nat, q: nat, P: seq<bool>, cols: nat)
    requires 0 < w && n == devs * w == |P| && cols == |ids| * w && q < cols && dest < devs && j < w && dest !in ids
    requires forall x | 0 <= x < |ids| :: ids[x] < devs
    ensures q / w < |ids| && Pos(w, ids[q / w], q % w) < n && Pos(w, dest, j) < n
    ensures Pos(w, ids[q / w], q % w) != Pos(w, dest, j)
    ensures Arranged(w, cols, ids, P)[q] == P[Pos(w, ids[q / w], q % w)]
  {
    DeviceBound(w, |ids|, q);
    PacketIndex(w, devs, n, ids[q / w], q % w);
    PacketIndex(w, devs, n, dest, j);
  }

  // The operation for source packet c, and what it reads and writes.
  ghost function SourceOp(w: nat, row: seq<bool>, ids: seq<nat>, dest: nat, j: nat, c: nat): Op
    requires 0 < w && c < |row| && c / w < |ids|
  {
    Op(ids[c / w], c % w, dest, j, Ones(row, c) > 0)
  }

  lemma NoneFit(devs: nat, w: nat)
    ensures Fits(devs, w, [])
  {
  }

  lemma OneFits(devs: nat, w: nat, ops: seq<Op>, op: Op)
    requires Fits(devs, w, ops) && 0 <= op.srcDev < devs && op.srcPkt < w && op.dstDev < devs && op.dstPkt < w
    ensures Fits(devs, w, ops + [op])
  {
  }

  lemma FitTogether(devs: nat, w: nat, a: seq<Op>, b: seq<Op>)
    requires Fits(devs, w, a) && Fits(devs, w, b)
    ensures Fits(devs, w, a + b)
  {
  }

  lemma {:induction false} SourceOpsFit(w: nat, devs: nat, row: seq<bool>, ids: seq<nat>, dest: nat, j: nat, c: nat)
    requires 0 < w && c <= |row| && dest < devs && j < w && forall x | 0 <= x < |ids| :: ids[x] < devs
    ensures Fits(devs, w, SourceOps(w, row, ids, dest, j, c))
  {
    hide Ones, Fits;
    NoneFit(devs, w);
    if c > 0 {
      SourceOpsFit(w, devs, row, ids, dest, j, c - 1);
      if row[c - 1] && (c - 1) / w < |ids| {
        OneFits(devs, w, SourceOps(w, row, ids, dest, j, c - 1), SourceOp(w, row, ids, dest, j, c - 1));
      }
    }
  }

  lemma SourceOpsNext(w: nat, row: seq<bool>, ids: seq<nat>, dest: nat, j: nat, c: nat)
    requires 0 < w && c < |row| && c / w < |ids|
    ensures Ones(row, c + 1) == Ones(row, c) + if row[c] then 1 else 0
    ensures row[c] ==>
      SourceOps(w, row, ids, dest, j, c + 1) == SourceOps(w, row, ids, dest, j, c) + [SourceOp(w, row, ids, dest, j, c)]
    ensures !row[c] ==> SourceOps(w, row, ids, dest, j, c + 1) == SourceOps(w, row, ids, dest, j, c)
  {
  }

  lemma {:induction false} SourceOpsRun(w: nat, devs: nat, n: nat, row: seq<bool>, ids: seq<nat>, dest: nat, j: nat,
                                        c: nat, P: seq<bool>)
    requires 0 < w && n == devs * w == |P| && |row| == |ids| * w && c <= |row| && dest < devs && j < w && dest !in ids
    requires forall x | 0 <= x < |ids| :: ids[x] < devs
    ensures Pos(w, dest, j) < n
    ensures Run(w, P, SourceOps(w, row, ids, dest, j, c)) ==
      if Ones(row, c) == 0 then P else P[Pos(w, dest, j) := DotTo(F2, row, Arranged(w, |row|, ids, P), c)]
    ensures Ones(row, c) == 0 ==> !DotTo(F2, row, Arranged(w, |row|, ids, P), c)
  {
    hide Run, DotTo, Arranged, Pos;
    BitDotStep(row, Arranged(w, |row|, ids, P), c);
    DestPacket(w, devs, n, dest, j);
    if c == 0 {
      RunNone(w, P);
    } else {
      SourceOpsRun(w, devs, n, row, ids, dest, j, c - 1, P);
      SourceStep(w, devs, n, row, ids, dest, j, c - 1, P);
    }
  }

  lemma SourceStep(w: nat, devs: nat, n: nat, row: seq<bool>, ids: seq<nat>, dest: nat, j: nat, c: nat, P: seq<bool>)
    requires 0 < w && n == devs * w == |P| && |row| == |ids| * w && c < |row| && dest < devs && j < w && dest !in ids
    requires (forall x | 0 <= x < |ids| :: ids[x] < devs) && Pos(w, dest, j) < n
    requires Run(w, P, SourceOps(w, row, ids, dest, j, c)) ==
      if Ones(row, c) == 0 then P else P[Pos(w, dest, j) := DotTo(F2, row, Arranged(w, |row|, ids, P), c)]
    requires Ones(row, c) == 0 ==> !DotTo(F2, row, Arranged(w, |row|, ids, P), c)
    ensures Run(w, P, SourceOps(w, row, ids, dest, j, c + 1)) ==
      if Ones(row, c + 1) == 0 then P else P[Pos(w, dest, j) := DotTo(F2, row, Arranged(w, |row|, ids, P), c + 1)]
  {
    hide Run, DotTo, Arranged, Pos, SourceOps, Ones;
    var shown, d := Arranged(w, |row|, ids, P), Pos(w, dest, j);
    BitDotStep(row, shown, c + 1);
    SourcePacket(w, devs, n, ids, dest, j, c, P, |row|);
    SourceOpsNext(w, row, ids, dest, j, c);
    if row[c] {
      SourceOpRun(w, P, SourceOps(w, row, ids, dest, j, c), SourceOp(w, row, ids, dest, j, c), d,
                  Pos(w, ids[c / w], c % w), DotTo(F2, row, shown, c));
    }
  }

  // One more operation onto packet d, which is a copy when it is the first.
  lemma SourceOpRun(w: nat, P: seq<bool>, before: seq<Op>, op: Op, d: nat, s: nat, v: bool)
    requires s < |P| && d < |P| && s != d && op.srcDev >= 0 && s == Pos(w, op.srcDev, op.srcPkt)
    requires d == Pos(w, op.dstDev, op.dstPkt)
    requires Run(w, P, before) == if !op.isXor then P else P[d := v]
    ensures Run(w, P, before + [op]) == P[d := if op.isXor then v != P[s] else P[s]]
  {
    hide Run, Step, Pos;
    RunSnoc(w, P, before, op);
    assert P[d := P[d]] == P;
    OpPackets(w, op);
    StepOnto(w, P, d, if op.isXor then v else P[d], s, op);
  }

  lemma DestPacket(w: nat, devs: nat, n: nat, dest: nat, j: nat)
    requires n == devs * w && dest < devs && j < w
    ensures Pos(w, dest, j) < n
  {
    PacketIndex(w, devs, n, dest, j);
  }

  lemma OpPackets(w: nat, op: Op)
    requires op.srcDev >= 0
    ensures Src(w, op) == Pos(w, op.srcDev, op.srcPkt) && Dst(w, op) == Pos(w, op.dstDev, op.dstPkt)
  {
  }

  // The packets after the first c packets of dest, which start at base, have been replaced.
  ghost function DotPackets(w: nat, cols: nat, B: seq<seq<bool>>, first: nat, ids: seq<nat>, base: nat, c: nat,
                            P: seq<bool>): (P': seq<bool>)
    requires 0 < w && IsBitmatrix(B, |B|, cols) && first + c <= |B|
    ensures |P'| == |P|
  {
    seq(|P|, q requires 0 <= q < |P| =>
      if base <= q < base + c && Ones(B[first + (q - base)], cols) > 0
      then Dot(F2, B[first + (q - base)], Arranged(w, cols, ids, P)) else P[q])
  }

  lemma DotPacketsNext(w: nat, cols: nat, B: seq<seq<bool>>, first: nat, ids: seq<nat>, base: nat, c: nat, P: seq<bool>)
    requires 0 < w && IsBitmatrix(B, |B|, cols) && first + c < |B| && base + c < |P|
    ensures forall q | 0 <= q < |P| && !(base <= q < base + c) ::
      DotPackets(w, cols, B, first, ids, base, c, P)[q] == P[q]
    ensures DotPackets(w, cols, B, first, ids, base, c + 1, P) ==
      if Ones(B[first + c], cols) == 0 then DotPackets(w, cols, B, first, ids, base, c, P)
      else DotPackets(w, cols, B, first, ids, base, c, P)[base + c := Dot(F2, B[first + c], Arranged(w, cols, ids, P))]
  {
    hide Ones, Dot, Arranged;
  }

  lemma NoDotPackets(w: nat, cols: nat, B: seq<seq<bool>>, first: nat, ids: seq<nat>, base: nat, P: seq<bool>)
    requires 0 < w && IsBitmatrix(B, |B|, cols) && first <= |B|
    ensures DotPackets(w, cols, B, first, ids, base, 0, P) == P
  {
    hide Ones, Dot, Arranged;
  }

  lemma SameArranged(w: nat, devs: nat, n: nat, ids: seq<nat>, dest: nat, cols: nat, P: seq<bool>, P': seq<bool>)
    requires 0 < w && n == devs * w == |P| == |P'| && cols == |ids| * w && dest < devs && dest !in ids
    requires forall x | 0 <= x < |ids| :: ids[x] < devs
    requires forall q | 0 <= q < n && !(Pos(w, dest, 0) <= q < Pos(w, dest, 0) + w) :: P'[q] == P[q]
    ensures Arranged(w, cols, ids, P') == Arranged(w, cols, ids, P)
  {
    forall q | 0 <= q < cols
      ensures Arranged(w, cols, ids, P')[q] == Arranged(w, cols, ids, P)[q]
    {
      DeviceBound(w, |ids|, q);
      var s := Pos(w, ids[q / w], q % w);
      OutsideDevice(w, devs, n, ids[q / w], q % w, dest);
      assert P'[s] == P[s];
    }
  }

  lemma OutsideDevice(w: nat, devs: nat, n: nat, d: nat, y: nat, dest: nat)
    requires n == devs * w && d < devs && dest < devs && d != dest && y < w
    ensures Pos(w, d, y) < n && !(Pos(w, dest, 0) <= Pos(w, d, y) < Pos(w, dest, 0) + w)
  {
    PacketIndex(w, devs, n, d, y);
    if d < dest {
      MulNext(d, dest, w);
    } else {
      MulNext(dest, d, w);
    }
  }

  lemma {:induction false} DeviceOpsFit(w: nat, devs: nat, cols: nat, B: seq<seq<bool>>, first: nat, ids: seq<nat>,
                                        dest: nat, c: nat)
    requires 0 < w && IsBitmatrix(B, |B|, cols) && first + c <= |B| && c <= w
    requires dest < devs && forall x | 0 <= x < |ids| :: ids[x] < devs
    ensures Fits(devs, w, DeviceOps(w, B, first, ids, dest, c))
  {
    hide SourceOps, Fits;
    if c == 0 {
      NoneFit(devs, w);
    } else {
      DeviceOpsFit(w, devs, cols, B, first, ids, dest, c - 1);
      SourceOpsFit(w, devs, B[first + c - 1], ids, dest, c - 1, cols);
      FitTogether(devs, w, DeviceOps(w, B, first, ids, dest, c - 1),
                  SourceOps(w, B[first + c - 1], ids, dest, c - 1, cols));
    }
  }

  lemma {:induction false} DeviceOpsRun(w: nat, devs: nat, n: nat, cols: nat, B: seq<seq<bool>>, first: nat,
                                        ids: seq<nat>, dest: nat, base: nat, c: nat, P: seq<bool>)
    requires 0 < w && n == devs * w == |P| && cols == |ids| * w && IsBitmatrix(B, |B|, cols) && first + c <= |B|
    requires c <= w
    requires dest < devs && base == Pos(w, dest, 0) && dest !in ids && forall x | 0 <= x < |ids| :: ids[x] < devs
    ensures Run(w, P, DeviceOps(w, B, first, ids, dest, c)) == DotPackets(w, cols, B, first, ids, base, c, P)
  {
    hide Run, Dot, Arranged, SourceOps, Ones, Pos, DotPackets;
    if c == 0 {
      RunNone(w, P);
      NoDotPackets(w, cols, B, first, ids, base, P);
    } else {
      var row, P1 := B[first + c - 1], DotPackets(w, cols, B, first, ids, base, c - 1, P);
      DeviceOpsRun(w, devs, n, cols, B, first, ids, dest, base, c - 1, P);
      RunAppend(w, P, DeviceOps(w, B, first, ids, dest, c - 1), SourceOps(w, row, ids, dest, c - 1, cols));
      SourceOpsRun(w, devs, n, row, ids, dest, c - 1, cols, P1);
      PosStep(w, dest, c - 1);
      DotPacketsNext(w, cols, B, first, ids, base, c - 1, P);
      SameArranged(w, devs, n, ids, dest, cols, P, P1);
      DotIs(row, Arranged(w, cols, ids, P));
    }
  }

  lemma PosStep(w: nat, d: nat, y: nat)
    ensures Pos(w, d, y) == Pos(w, d, 0) + y
  {
  }

  lemma DotIs(row: seq<bool>, x: seq<bool>)
    requires |row| == |x|
    ensures Dot(F2, row, x) == DotTo(F2, row, x, |row|)
  {
  }

  // ---- On the buffers.

  // What bit i of device dest becomes, where y is its packet and P shows the packets at its stripe and bit.
  ghost predicate DotBitIs(w: nat, ps: nat, n: nat, cols: nat, B: seq<seq<bool>>, first: nat, ids: seq<nat>, dest: nat,
                           T: seq<seq<bool>>, T': seq<seq<bool>>, t: nat, y: nat, b: nat)
    requires 0 < w && IsBitmatrix(B, |B|, cols) && first + y < |B| && dest < |T| == |T'|
    requires At(w, ps, t, y, b) < |T[dest]| == |T'[dest]|
  {
    T'[dest][At(w, ps, t, y, b)] ==
      if Ones(B[first + y], cols) > 0 then Dot(F2, B[first + y], Arranged(w, cols, ids, View(w, ps, n, T, t, b)))
        else T[dest][At(w, ps, t, y, b)]
  }

  /** Each packet of dest becomes the product of its row with the packets of the sources, unless the row is zero;
      no other device changes. */
  lemma DotDevice(w: nat, ps: nat, stripes: nat, n: nat, cols: nat, B: seq<seq<bool>>, first: nat, ids: seq<nat>,
                  dest: nat, T: seq<seq<bool>>, t: nat, y: nat, b: nat, d: nat)
    requires 0 < w && n == |T| * w && cols == |ids| * w && IsBitmatrix(B, |B|, cols) && first + w <= |B|
    requires dest < |T| && dest !in ids && forall x | 0 <= x < |ids| :: ids[x] < |T|
    requires Sized(T, |T|, Size(w, ps, stripes)) && t < stripes && y < w && b < ps && d < |T|
    ensures At(w, ps, t, y, b) < Size(w, ps, stripes)
    ensures var T' := RunStripes(w, ps, T, stripes, DeviceOps(w, B, first, ids, dest, w));
      && (d != dest ==> T'[d][At(w, ps, t, y, b)] == T[d][At(w, ps, t, y, b)])
      && DotBitIs(w, ps, n, cols, B, first, ids, dest, T, T', t, y, b)
  {
    hide At, Size, View, Run, RunStripes, DeviceOps, Dot, Arranged, Ones, Pos;
    var ops := DeviceOps(w, B, first, ids, dest, w);
    var T', P, base := RunStripes(w, ps, T, stripes, ops), View(w, ps, n, T, t, b), Pos(w, dest, 0);
    AtBound(w, ps, stripes, t, y, b);
    DeviceOpsFit(w, |T|, cols, B, first, ids, dest, w);
    DeviceOpsRun(w, |T|, n, cols, B, first, ids, dest, base, w, P);
    RunStripesView(w, ps, n, stripes, T, stripes, t, b, ops);
    ShownAt(w, ps, n, stripes, T, t, b, dest, y);
    ShownAt(w, ps, n, stripes, T', t, b, dest, y);
    PosStep(w, dest, y);
    if d != dest {
      OutsideDevice(w, |T|, n, d, y, dest);
      ShownAt(w, ps, n, stripes, T, t, b, d, y);
      ShownAt(w, ps, n, stripes, T', t, b, d, y);
    }
  }

  lemma ShownAt(w: nat, ps: nat, n: nat, stripes: nat, S: seq<seq<bool>>, t: nat, b: nat, d: nat, y: nat)
    requires 0 < w && n == |S| * w && Sized(S, |S|, Size(w, ps, stripes)) && t < stripes && b < ps && d < |S| && y < w
    ensures Pos(w, d, y) < n && At(w, ps, t, y, b) < Size(w, ps, stripes)
    ensures View(w, ps, n, S, t, b)[Pos(w, d, y)] == S[d][At(w, ps, t, y, b)]
  {
    hide At, Size, View;
    ViewAt(w, ps, n, stripes, S, t, b, d, y);
  }
}

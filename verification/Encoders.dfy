/** Encoding with a bitmatrix: by a schedule, or directly row by row. */
module Encoders {
  import opened Arithmetic
  import opened Schedules
  import opened Compilers
  import opened Buffers
  import opened Elimination
  import opened Options
  import opened SourceDevices

  // memcpy, or galois_region_xor when isXor, of one packet. The two packets are equal or apart.
  method MovePacket(ptrs: seq<array<bool>>, s: nat, from: nat, d: nat, to: nat, ps: nat, isXor: bool)
    requires s < |ptrs| && d < |ptrs| && Distinct(ptrs)
    requires from + ps <= ptrs[s].Length && to + ps <= ptrs[d].Length
    requires s == d ==> from == to || from + ps <= to || to + ps <= from
    modifies ptrs[d]
    ensures forall i | 0 <= i < ptrs[d].Length :: ptrs[d][i] == old(
      if to <= i < to + ps then
        if isXor then ptrs[d][i] != ptrs[s][i - to + from] else ptrs[s][i - to + from]
      else ptrs[d][i])
  {
    for b := 0 to ps
      invariant forall i | 0 <= i < ptrs[d].Length && !(to <= i < to + b) :: ptrs[d][i] == old(ptrs[d][i])
      invariant forall i | to <= i < to + b ::
        ptrs[d][i] == old(if isXor then ptrs[d][i] != ptrs[s][i - to + from] else ptrs[s][i - to + from])
      invariant forall i | 0 <= i < ptrs[s].Length && s != d :: ptrs[s][i] == old(ptrs[s][i])
    {
      if isXor {
        ptrs[d][to + b] := ptrs[s][from + b] != ptrs[d][to + b];
      } else {
        ptrs[d][to + b] := ptrs[s][from + b];
      }
    }
  }

  // One operation on the stripe that starts at base.
  method DoOperation(ptrs: seq<array<bool>>, op: Op, w: nat, ps: nat, base: nat, ghost t: nat, ghost stripes: nat)
    requires Distinct(ptrs) && AllSized(ptrs, Size(w, ps, stripes))
    requires OpFits(|ptrs|, w, op) && t < stripes && base == At(w, ps, t, 0, 0)
    modifies ptrs[op.dstDev]
    ensures Contents(ptrs) == StepBuffers(w, ps, old(Contents(ptrs)), t, op)
  {
    hide At, Size, StepBuffers;
    ghost var S := Contents(ptrs);
    var from, to := base + op.srcPkt * ps, base + op.dstPkt * ps;
    PacketInside(w, ps, stripes, t, op.srcPkt);
    PacketInside(w, ps, stripes, t, op.dstPkt);
    PacketsApart(w, ps, t, op.srcPkt, op.dstPkt);
    MovePacket(ptrs, op.srcDev, from, op.dstDev, to, ps, op.isXor);
    StepDevice(w, ps, S, t, op, ptrs[op.dstDev][..], from, to);
    Written(ptrs, op.dstDev, S);
  }

  lemma StepDevice(w: nat, ps: nat, S: seq<seq<bool>>, t: nat, op: Op, v: seq<bool>, from: nat, to: nat)
    requires 0 <= op.srcDev < |S| && op.dstDev < |S| && |v| == |S[op.dstDev]|
    requires from == At(w, ps, t, op.srcPkt, 0) && to == At(w, ps, t, op.dstPkt, 0) && from + ps <= |S[op.srcDev]|
    requires forall i | 0 <= i < |v| ::
      v[i] ==
      (if to <= i < to + ps then
         if op.isXor then S[op.dstDev][i] != S[op.srcDev][i - to + from] else S[op.srcDev][i - to + from]
       else S[op.dstDev][i])
    ensures StepBuffers(w, ps, S, t, op) == S[op.dstDev := v]
  {
    hide At;
    assert StepBuffers(w, ps, S, t, op)[op.dstDev] == v;
  }

  lemma PacketInside(w: nat, ps: nat, stripes: nat, t: nat, y: nat)
    requires t < stripes && y < w
    ensures At(w, ps, t, y, 0) + ps <= Size(w, ps, stripes)
    ensures At(w, ps, t, y, 0) == At(w, ps, t, 0, 0) + y * ps
  {
    MulNext(t, stripes, w * ps);
    MulNext(y, w, ps);
  }

  /** jerasure_do_scheduled_operations: run a schedule on the stripe that starts at base. */
  method DoScheduledOperations(ptrs: seq<array<bool>>, operations: array<Op>, w: nat, ps: nat, base: nat,
                               ghost t: nat, ghost stripes: nat, ghost ops: seq<Op>)
    requires Distinct(ptrs) && AllSized(ptrs, Size(w, ps, stripes))
    requires IsSchedule(operations, ops) && Fits(|ptrs|, w, ops) && t < stripes && base == At(w, ps, t, 0, 0)
    modifies ptrs
    ensures Contents(ptrs) == RunBuffers(w, ps, old(Contents(ptrs)), t, ops)
  {
    hide At, Size, StepBuffers;
    ghost var S := Contents(ptrs);
    var op := 0;
    assert ops[..|ops|] == ops;
    while operations[op].srcDev >= 0
      invariant 0 <= op <= |ops| && IsSchedule(operations, ops)
      invariant Contents(ptrs) == RunBuffers(w, ps, S, t, ops[..op])
      decreases |ops| - op
    {
      assert ops[..op + 1][..op] == ops[..op];
      assert operations[op] == ops[op];
      DoOperation(ptrs, operations[op], w, ps, base, t, stripes);
      op := op + 1;
    }
  }

  ghost predicate EncodedAt(w: nat, ps: nat, cols: nat, B: seq<seq<bool>>, S: seq<seq<bool>>, S': seq<seq<bool>>,
                            t: nat, b: nat)
    requires 0 < w && IsBitmatrix(B, |B|, cols)
  {
    View(w, ps, cols + |B|, S', t, b) == Encoded(cols, B, View(w, ps, cols + |B|, S, t, b))
  }

  /** Every stripe and bit of S' holds the encoding of what S held there. */
  ghost predicate EncodedBuffers(w: nat, ps: nat, stripes: nat, cols: nat, B: seq<seq<bool>>, S: seq<seq<bool>>,
                                 S': seq<seq<bool>>)
    requires 0 < w && IsBitmatrix(B, |B|, cols)
  {
    forall t, b | 0 <= t < stripes && 0 <= b < ps :: EncodedAt(w, ps, cols, B, S, S', t, b)
  }

  lemma StripesEncode(w: nat, ps: nat, stripes: nat, cols: nat, B: seq<seq<bool>>, S: seq<seq<bool>>, ops: seq<Op>)
    requires 0 < w && IsBitmatrix(B, |B|, cols) && cols + |B| == |S| * w && Sized(S, |S|, Size(w, ps, stripes))
    requires Computes(|S|, w, cols, B, ops)
    ensures EncodedBuffers(w, ps, stripes, cols, B, S, RunStripes(w, ps, S, stripes, ops))
  {
    hide Size, View, Run, Encoded, RunStripes;
    forall t, b | 0 <= t < stripes && 0 <= b < ps
      ensures EncodedAt(w, ps, cols, B, S, RunStripes(w, ps, S, stripes, ops), t, b)
    {
      RunStripesView(w, ps, cols + |B|, stripes, S, stripes, t, b, ops);
    }
  }

  /** Run a schedule on every stripe. */
  method RunSchedule(ptrs: seq<array<bool>>, operations: array<Op>, w: nat, ps: nat, size: nat, ghost stripes: nat,
                     ghost ops: seq<Op>)
    requires Distinct(ptrs) && AllSized(ptrs, Size(w, ps, stripes)) && size == Size(w, ps, stripes) && 0 < w * ps
    requires IsSchedule(operations, ops) && Fits(|ptrs|, w, ops)
    modifies ptrs
    ensures Contents(ptrs) == RunStripes(w, ps, old(Contents(ptrs)), stripes, ops)
  {
    var tdone := 0;
    ghost var t := 0;
    StripeStart(w, ps, 0);
    while tdone < size
      invariant 0 <= t <= stripes && tdone == At(w, ps, t, 0, 0) == Size(w, ps, t)
      invariant IsSchedule(operations, ops)
      invariant Contents(ptrs) == RunStripes(w, ps, old(Contents(ptrs)), t, ops)
      decreases stripes - t
    {
      if t == stripes { assert false; }
      StripeStart(w, ps, t + 1);
      StripeNext(w, ps, t);
      DoScheduledOperations(ptrs, operations, w, ps, tdone, t, stripes, ops);
      tdone := tdone + w * ps;
      t := t + 1;
    }
    StripesDone(w, ps, t, stripes);
  }

  lemma StripeStart(w: nat, ps: nat, t: nat)
    ensures At(w, ps, t, 0, 0) == Size(w, ps, t)
  {
  }

  lemma StripeNext(w: nat, ps: nat, t: nat)
    ensures Size(w, ps, t + 1) == Size(w, ps, t) + w * ps
  {
  }

  lemma StripesDone(w: nat, ps: nat, t: nat, stripes: nat)
    requires t <= stripes && Size(w, ps, stripes) <= Size(w, ps, t) && 0 < w * ps
    ensures t == stripes
  {
    if t < stripes {
      MulNext(t, stripes, w * ps);
    }
  }

  // A schedule that computes B encodes with B.
  lemma ScheduleEncodes(k: nat, m: nat, w: nat, ps: nat, stripes: nat, cols: nat, B: seq<seq<bool>>, S: seq<seq<bool>>,
                        ops: seq<Op>)
    requires 0 < w && Shape(k, m, w, cols, |B|) && IsBitmatrix(B, |B|, cols) && Sized(S, k + m, Size(w, ps, stripes))
    requires Computes(k + m, w, cols, B, ops)
    ensures Fits(k + m, w, ops)
    ensures EncodedBuffers(w, ps, stripes, cols, B, S, RunStripes(w, ps, S, stripes, ops))
  {
    hide Size, Shape, RunStripes, EncodedBuffers;
    AllPackets(k, m, w, cols, |B|);
    StripesEncode(w, ps, stripes, cols, B, S, ops);
  }

  /** jerasure_schedule_encode: with a schedule that computes B, all buffers end up encoded with B. The
      first k pointers are the data devices, the other m the coding devices. */
  method ScheduleEncode(k: nat, m: nat, w: nat, operations: array<Op>, ptrs: seq<array<bool>>, size: nat, ps: nat,
                        ghost stripes: nat, ghost cols: nat, ghost B: seq<seq<bool>>, ghost ops: seq<Op>)
    requires |ptrs| == k + m && Distinct(ptrs) && AllSized(ptrs, Size(w, ps, stripes))
    requires size == Size(w, ps, stripes) && 0 < w && 0 < w * ps
    requires Shape(k, m, w, cols, |B|) && IsBitmatrix(B, |B|, cols)
    requires IsSchedule(operations, ops) && Computes(k + m, w, cols, B, ops)
    modifies ptrs
    ensures EncodedBuffers(w, ps, stripes, cols, B, old(Contents(ptrs)), Contents(ptrs))
  {
    hide Size, Shape, Computes, RunStripes, EncodedBuffers, IsSchedule;
    ScheduleEncodes(k, m, w, ps, stripes, cols, B, Contents(ptrs), ops);
    RunSchedule(ptrs, operations, w, ps, size, stripes, ops);
  }

  lemma AllPackets(k: nat, m: nat, w: nat, cols: nat, rows: nat)
    requires Shape(k, m, w, cols, rows)
    ensures cols + rows == (k + m) * w
  {
  }

  /** The buffers an encoder leaves are determined by what it started from. */
  lemma EncodersAgree(w: nat, ps: nat, stripes: nat, cols: nat, B: seq<seq<bool>>, S: seq<seq<bool>>,
                      S1: seq<seq<bool>>, S2: seq<seq<bool>>)
    requires 0 < w && IsBitmatrix(B, |B|, cols) && cols + |B| == |S1| * w
    requires Sized(S1, |S1|, Size(w, ps, stripes)) && Sized(S2, |S1|, Size(w, ps, stripes))
    requires EncodedBuffers(w, ps, stripes, cols, B, S, S1) && EncodedBuffers(w, ps, stripes, cols, B, S, S2)
    ensures S1 == S2
  {
    hide Size, View, Encoded;
    var n := cols + |B|;
    forall t, b | 0 <= t < stripes && 0 <= b < ps
      ensures View(w, ps, n, S1, t, b) == View(w, ps, n, S2, t, b)
    {
      assert EncodedAt(w, ps, cols, B, S, S1, t, b) && EncodedAt(w, ps, cols, B, S, S2, t, b);
    }
    SameViews(w, ps, n, stripes, S1, S2);
  }

  // ---- The product of rows with the packets of any devices, onto any device.

  // Packet j of device dest becomes the sum of the packets that the first n bits of the row pick: bit q picks
  // packet q % w of device ids[q / w]; the first one is copied, the others are xored in.
  ghost function SourceOps(w: nat, row: seq<bool>, ids: seq<nat>, dest: nat, j: nat, n: nat): (ops: seq<Op>)
    requires 0 < w && n <= |row|
  {
    if n == 0 then [] else
      var before := SourceOps(w, row, ids, dest, j, n - 1);
      if row[n - 1] && (n - 1) / w < |ids|
        then before + [Op(ids[(n - 1) / w], (n - 1) % w, dest, j, Ones(row, n - 1) > 0)] else before
  }

  // ... and the first n packets of dest, with the rows from first on.
  ghost function DeviceOps(w: nat, B: seq<seq<bool>>, first: nat, ids: seq<nat>, dest: nat, n: nat): (ops: seq<Op>)
    requires 0 < w && first + n <= |B|
  {
    if n == 0 then [] else
      var row := B[first + n - 1];
      DeviceOps(w, B, first, ids, dest, n - 1) + SourceOps(w, row, ids, dest, n - 1, |row|)
  }

  method DotBit(w: nat, bitmatrix: array2<bool>, r: nat, ghost ids: seq<nat>, source: nat, dest: nat,
                ptrs: seq<array<bool>>, j: nat, y: nat, index: nat, pstarted: bool, ps: nat, base: nat, ghost t: nat,
                ghost stripes: nat, ghost S: seq<seq<bool>>) returns (pstarted': bool)
    requires Distinct(ptrs) && AllSized(ptrs, Size(w, ps, stripes)) && t < stripes && base == At(w, ps, t, 0, 0)
    requires r < bitmatrix.Length0 && index < bitmatrix.Length1 && source < |ptrs| && dest < |ptrs| && y < w && j < w
    requires index / w < |ids| && ids[index / w] == source && index % w == y
    requires pstarted == (Ones(Rows(bitmatrix)[r], index) > 0)
    requires Contents(ptrs) == RunBuffers(w, ps, S, t, SourceOps(w, Rows(bitmatrix)[r], ids, dest, j, index))
    modifies ptrs[dest]
    ensures pstarted' == (Ones(Rows(bitmatrix)[r], index + 1) > 0)
    ensures Contents(ptrs) == RunBuffers(w, ps, S, t, SourceOps(w, Rows(bitmatrix)[r], ids, dest, j, index + 1))
  {
    hide At, Size, StepBuffers, RunBuffers;
    pstarted' := pstarted;
    if bitmatrix[r, index] {
      RunBuffersSnoc(w, ps, S, t, SourceOps(w, Rows(bitmatrix)[r], ids, dest, j, index),
                     Op(source, y, dest, j, pstarted));
      DoOperation(ptrs, Op(source, y, dest, j, pstarted), w, ps, base, t, stripes);
      pstarted' := true;
    }
  }

  // Position index is column y of block x.
  ghost predicate Column(w: nat, x: nat, y: nat, index: nat) { index == x * w + y }

  lemma ColumnStart(w: nat, x: nat, index: nat)
    ensures Column(w, 0, 0, 0)
    ensures Column(w, x, w, index) ==> Column(w, x + 1, 0, index)
  {
  }

  lemma ColumnNext(k: nat, w: nat, x: nat, y: nat, index: nat, cols: nat)
    requires Column(w, x, y, index) && x < k && y < w && Column(w, k, 0, cols)
    ensures Column(w, x, y + 1, index + 1) && index < cols && index / w == x && index % w == y
  {
    DivModUnique(w, x, y);
    MulNext(x, k, w);
  }

  // The devices a row of bitmatrix is for.
  ghost predicate Sourced(k: nat, srcIds: Option<seq<nat>>, devs: nat) {
    |Sources(k, srcIds)| == k && forall x | 0 <= x < k :: Sources(k, srcIds)[x] < devs
  }

  // One packet of one device: the product of one row with the packets of a stripe.
  method DotPacket(k: nat, w: nat, bitmatrix: array2<bool>, r: nat, srcIds: Option<seq<nat>>, dest: nat,
                   ptrs: seq<array<bool>>, j: nat, ps: nat, base: nat, ghost t: nat, ghost stripes: nat)
    requires Distinct(ptrs) && AllSized(ptrs, Size(w, ps, stripes)) && t < stripes && base == At(w, ps, t, 0, 0)
    requires Column(w, k, 0, bitmatrix.Length1) && r < bitmatrix.Length0 && j < w && Sourced(k, srcIds, |ptrs|)
    requires dest < |ptrs|
    modifies ptrs[dest]
    ensures Contents(ptrs) ==
      RunBuffers(w, ps, old(Contents(ptrs)), t,
                 SourceOps(w, Rows(bitmatrix)[r], Sources(k, srcIds), dest, j, bitmatrix.Length1))
  {
    hide At, Size, StepBuffers, Rows, SourceOps, Ones, Column, Sources;
    ghost var S, row, ids := Contents(ptrs), Rows(bitmatrix)[r], Sources(k, srcIds);
    var pstarted := false;
    var index := 0;
    ColumnStart(w, 0, 0);
    NothingYet(w, row, ids, dest, j);
    for x := 0 to k
      invariant Column(w, x, 0, index)
      invariant index <= bitmatrix.Length1
      invariant pstarted == (Ones(row, index) > 0)
      invariant Contents(ptrs) == RunBuffers(w, ps, S, t, SourceOps(w, row, ids, dest, j, index))
    {
      var source := SourceOf(k, srcIds, x);
      for y := 0 to w
        invariant Column(w, x, y, index) && index <= bitmatrix.Length1
        invariant pstarted == (Ones(row, index) > 0)
        invariant Contents(ptrs) == RunBuffers(w, ps, S, t, SourceOps(w, row, ids, dest, j, index))
      {
        ColumnNext(k, w, x, y, index, bitmatrix.Length1);
        pstarted := DotBit(w, bitmatrix, r, ids, source, dest, ptrs, j, y, index, pstarted, ps, base, t, stripes, S);
        index := index + 1;
      }
      ColumnStart(w, x, index);
    }
    ColumnEnd(w, k, index, k, bitmatrix.Length1);
  }

  lemma ColumnEnd(w: nat, x: nat, index: nat, k: nat, cols: nat)
    requires Column(w, x, 0, index) && Column(w, k, 0, cols)
    ensures x == k ==> index == cols
  {
  }

  lemma NothingYet(w: nat, row: seq<bool>, ids: seq<nat>, dest: nat, j: nat)
    requires 0 < w
    ensures SourceOps(w, row, ids, dest, j, 0) == [] && Ones(row, 0) == 0
    ensures forall ps, S, t :: RunBuffers(w, ps, S, t, []) == S
  {
  }

  ghost predicate OtherBuffers(S: seq<seq<bool>>, T: seq<seq<bool>>, dest: nat) {
    |S| == |T| && forall d | 0 <= d < |S| && d != dest :: T[d] == S[d]
  }

  /** jerasure_bitmatrix_dotprod with the w rows from first on: on every stripe, each packet of device dest becomes
      the product of its row with the packets of the source devices, and no other device is written. */
  method BitmatrixDotprod(k: nat, w: nat, bitmatrix: array2<bool>, first: nat, srcIds: Option<seq<nat>>, dest: nat,
                          ptrs: seq<array<bool>>, size: nat, ps: nat, ghost stripes: nat)
    requires Distinct(ptrs) && AllSized(ptrs, Size(w, ps, stripes)) && size == Size(w, ps, stripes) && 0 < w * ps
    requires 0 < w && Column(w, k, 0, bitmatrix.Length1) && first + w <= bitmatrix.Length0
    requires Sourced(k, srcIds, |ptrs|) && dest < |ptrs|
    modifies ptrs[dest]
    ensures Contents(ptrs) == RunStripes(w, ps, old(Contents(ptrs)), stripes,
                                         DeviceOps(w, Rows(bitmatrix), first, Sources(k, srcIds), dest, w))
    ensures OtherBuffers(old(Contents(ptrs)), Contents(ptrs), dest)
  {
    hide Sources, Sourced, DeviceOps;
    ghost var S, ops := Contents(ptrs), DeviceOps(w, Rows(bitmatrix), first, Sources(k, srcIds), dest, w);
    var sindex := 0;
    ghost var t := 0;
    StripeStart(w, ps, 0);
    while sindex < size
      invariant 0 <= t <= stripes && sindex == At(w, ps, t, 0, 0) == Size(w, ps, t)
      invariant Contents(ptrs) == RunStripes(w, ps, S, t, ops)
      decreases stripes - t
    {
      if t == stripes { assert false; }
      StripeStart(w, ps, t + 1);
      StripeNext(w, ps, t);
      DotStripe(k, w, bitmatrix, first, srcIds, dest, ptrs, ps, sindex, t, stripes);
      sindex := sindex + ps * w;
      t := t + 1;
    }
    StripesDone(w, ps, t, stripes);
  }

  method DotStripe(k: nat, w: nat, bitmatrix: array2<bool>, first: nat, srcIds: Option<seq<nat>>, dest: nat,
                   ptrs: seq<array<bool>>, ps: nat, base: nat, ghost t: nat, ghost stripes: nat)
    requires Distinct(ptrs) && AllSized(ptrs, Size(w, ps, stripes)) && t < stripes && base == At(w, ps, t, 0, 0)
    requires 0 < w && Column(w, k, 0, bitmatrix.Length1) && first + w <= bitmatrix.Length0
    requires Sourced(k, srcIds, |ptrs|) && dest < |ptrs|
    modifies ptrs[dest]
    ensures Contents(ptrs) ==
      RunBuffers(w, ps, old(Contents(ptrs)), t, DeviceOps(w, Rows(bitmatrix), first, Sources(k, srcIds), dest, w))
  {
    hide At, Size, StepBuffers, Rows, SourceOps, RunBuffers, Contents, Column, Sources, Sourced;
    ghost var S, B, ids := Contents(ptrs), Rows(bitmatrix), Sources(k, srcIds);
    NothingRun(w, ps, S, t);
    for j := 0 to w
      invariant Contents(ptrs) == RunBuffers(w, ps, S, t, DeviceOps(w, B, first, ids, dest, j))
    {
      RunBuffersAppend(w, ps, S, t, DeviceOps(w, B, first, ids, dest, j),
                       SourceOps(w, B[first + j], ids, dest, j, |B[first + j]|));
      DotPacket(k, w, bitmatrix, first + j, srcIds, dest, ptrs, j, ps, base, t, stripes);
    }
  }

  // Over the data devices, onto a coding device, these are the operations that build its rows from scratch.
  lemma {:induction false} ScratchOps(k: nat, w: nat, row: seq<bool>, i: nat, j: nat, r: nat, n: nat)
    requires 0 < w && n <= |row| && Column(w, k, 0, |row|) && j < w && Column(w, i, j, r)
    ensures SourceOps(w, row, Range(k), k + i, j, n) == FromScratch(k, w, row, r, n)
  {
    DivModUnique(w, i, j);
    if n > 0 {
      ScratchOps(k, w, row, i, j, r, n - 1);
      DeviceBound(w, k, n - 1);
    }
  }

  lemma {:induction false} DeviceRowOps(k: nat, w: nat, cols: nat, B: seq<seq<bool>>, first: nat, i: nat, n: nat)
    requires 0 < w && IsBitmatrix(B, |B|, cols) && Column(w, k, 0, cols) && Column(w, i, 0, first) && n <= w
    requires first + n <= |B|
    ensures DeviceOps(w, B, first, Range(k), k + i, n) == RowOps(k, w, cols, B, first, first + n)
  {
    hide Column, SourceOps, FromScratch;
    if n > 0 {
      DeviceRowOps(k, w, cols, B, first, i, n - 1);
      ColumnFrom(w, i, first, n - 1);
      ScratchOps(k, w, B[first + n - 1], i, n - 1, first + n - 1, cols);
    }
  }

  lemma NothingRun(w: nat, ps: nat, S: seq<seq<bool>>, t: nat)
    ensures RunBuffers(w, ps, S, t, []) == S
  {
  }

  lemma ColumnFrom(w: nat, i: nat, first: nat, j: nat)
    requires Column(w, i, 0, first)
    ensures Column(w, i, j, first + j)
  {
  }

  lemma RowOpsFit(k: nat, m: nat, w: nat, cols: nat, B: seq<seq<bool>>, a: nat, b: nat)
    requires Shape(k, m, w, cols, |B|) && 0 < w && IsBitmatrix(B, |B|, cols) && a <= b <= |B|
    ensures Fits(k + m, w, RowOps(k, w, cols, B, a, b))
  {
    hide Shape;
    if a < b {
      RowOpsFit(k, m, w, cols, B, a, b - 1);
      FromScratchRuns(k, m, w, cols, |B|, B[b - 1], b - 1, cols, seq(cols + |B|, i => false));
    }
  }

  // Where S' is what the operations make of S at every stripe and bit.
  ghost predicate RanAt(w: nat, ps: nat, n: nat, S: seq<seq<bool>>, S': seq<seq<bool>>, ops: seq<Op>, t: nat, b: nat)
    requires 0 < w
  {
    View(w, ps, n, S', t, b) == Run(w, View(w, ps, n, S, t, b), ops)
  }

  ghost predicate Ran(w: nat, ps: nat, n: nat, stripes: nat, S: seq<seq<bool>>, S': seq<seq<bool>>, ops: seq<Op>)
    requires 0 < w
  {
    forall t, b | 0 <= t < stripes && 0 <= b < ps :: RanAt(w, ps, n, S, S', ops, t, b)
  }

  lemma RanMore(w: nat, ps: nat, n: nat, stripes: nat, S: seq<seq<bool>>, S1: seq<seq<bool>>, a: seq<Op>, b: seq<Op>)
    requires 0 < w && n == |S1| * w && Sized(S1, |S1|, Size(w, ps, stripes)) && Fits(|S1|, w, b)
    requires Ran(w, ps, n, stripes, S, S1, a)
    ensures Ran(w, ps, n, stripes, S, RunStripes(w, ps, S1, stripes, b), a + b)
  {
    hide Size, View, Run, RunStripes;
    forall t, c | 0 <= t < stripes && 0 <= c < ps
      ensures RanAt(w, ps, n, S, RunStripes(w, ps, S1, stripes, b), a + b, t, c)
    {
      assert RanAt(w, ps, n, S, S1, a, t, c);
      RunStripesView(w, ps, n, stripes, S1, stripes, t, c, b);
      RunAppend(w, View(w, ps, n, S, t, c), a, b);
    }
  }

  lemma RanNothing(w: nat, ps: nat, n: nat, stripes: nat, S: seq<seq<bool>>)
    requires 0 < w
    ensures Ran(w, ps, n, stripes, S, S, [])
  {
  }

  lemma RanAll(k: nat, m: nat, w: nat, ps: nat, stripes: nat, cols: nat, B: seq<seq<bool>>, S: seq<seq<bool>>,
               S': seq<seq<bool>>)
    requires Shape(k, m, w, cols, |B|) && 0 < w && IsBitmatrix(B, |B|, cols)
    requires Ran(w, ps, cols + |B|, stripes, S, S', RowOps(k, w, cols, B, 0, |B|))
    ensures EncodedBuffers(w, ps, stripes, cols, B, S, S')
  {
    hide Shape, View, Run, Encoded, RowOps;
    ScratchOrderFacts(k, w, cols, B, |B|);
    OrderComputes(k, m, w, cols, |B|, B, ScratchOrder(|B|));
    forall t, b | 0 <= t < stripes && 0 <= b < ps
      ensures EncodedAt(w, ps, cols, B, S, S', t, b)
    {
      assert RanAt(w, ps, cols + |B|, S, S', RowOps(k, w, cols, B, 0, |B|), t, b);
    }
  }

  /** jerasure_bitmatrix_encode: device by device, without a schedule. */
  method BitmatrixEncode(k: nat, m: nat, w: nat, bitmatrix: array2<bool>, ptrs: seq<array<bool>>, size: nat, ps: nat,
                         ghost stripes: nat)
    requires |ptrs| == k + m && Distinct(ptrs) && AllSized(ptrs, Size(w, ps, stripes))
    requires size == Size(w, ps, stripes) && 0 < w && 0 < w * ps
    requires Shape(k, m, w, bitmatrix.Length1, bitmatrix.Length0)
    modifies ptrs
    ensures EncodedBuffers(w, ps, stripes, bitmatrix.Length1, Rows(bitmatrix), old(Contents(ptrs)), Contents(ptrs))
  {
    hide Shape, Rows, Size, Column, Ran, RowOps, Run, Contents, RunStripes, EncodedBuffers;
    ghost var S, cols, rows, B := Contents(ptrs), bitmatrix.Length1, bitmatrix.Length0, Rows(bitmatrix);
    var first := 0;
    EncodeStart(k, m, w, ps, stripes, cols, rows, B, S);
    for i := 0 to m
      invariant Column(w, i, 0, first) && first <= rows
      invariant Ran(w, ps, cols + rows, stripes, S, Contents(ptrs), RowOps(k, w, cols, B, 0, first))
    {
      EncodeStep(k, m, w, ps, stripes, cols, rows, B, S, Contents(ptrs), i, first);
      DeviceRowOps(k, w, cols, B, first, i, w);
      BitmatrixDotprod(k, w, bitmatrix, first, None, k + i, ptrs, size, ps, stripes);
      first := first + w;
    }
    ColumnEnd(w, m, first, m, rows);
    RanAll(k, m, w, ps, stripes, cols, B, S, Contents(ptrs));
  }

  lemma EncodeStart(k: nat, m: nat, w: nat, ps: nat, stripes: nat, cols: nat, rows: nat, B: seq<seq<bool>>,
                    S: seq<seq<bool>>)
    requires Shape(k, m, w, cols, rows) && 0 < w && IsBitmatrix(B, rows, cols)
    ensures Column(w, k, 0, cols) && Column(w, m, 0, rows) && Column(w, 0, 0, 0)
    ensures Ran(w, ps, cols + rows, stripes, S, S, RowOps(k, w, cols, B, 0, 0))
  {
    RanNothing(w, ps, cols + rows, stripes, S);
  }

  lemma ShapeColumns(k: nat, m: nat, w: nat, cols: nat, rows: nat)
    requires Shape(k, m, w, cols, rows)
    ensures Column(w, k, 0, cols) && Column(w, m, 0, rows)
  {
  }

  lemma EncodeStep(k: nat, m: nat, w: nat, ps: nat, stripes: nat, cols: nat, rows: nat, B: seq<seq<bool>>,
                   S: seq<seq<bool>>, S1: seq<seq<bool>>, i: nat, first: nat)
    requires Shape(k, m, w, cols, rows) && 0 < w && IsBitmatrix(B, rows, cols)
    requires |S1| == k + m && Sized(S1, k + m, Size(w, ps, stripes))
    requires Column(w, i, 0, first) && i < m && first <= rows
    requires Ran(w, ps, cols + rows, stripes, S, S1, RowOps(k, w, cols, B, 0, first))
    ensures first + w <= rows && Column(w, i + 1, 0, first + w)
    ensures Ran(w, ps, cols + rows, stripes, S, RunStripes(w, ps, S1, stripes, RowOps(k, w, cols, B, first, first + w)),
                RowOps(k, w, cols, B, 0, first + w))
  {
    hide Shape, Size, Column, Ran, RowOps, Run, RunStripes;
    ShapeColumns(k, m, w, cols, rows);
    ColumnBlock(w, i, first, m, rows);
    AllPackets(k, m, w, cols, rows);
    RowOpsAppend(k, w, cols, B, 0, first, first + w);
    RowOpsFit(k, m, w, cols, B, first, first + w);
    RanMore(w, ps, cols + rows, stripes, S, S1,
            RowOps(k, w, cols, B, 0, first), RowOps(k, w, cols, B, first, first + w));
  }

  lemma ColumnBlock(w: nat, i: nat, first: nat, m: nat, rows: nat)
    requires Column(w, i, 0, first) && Column(w, m, 0, rows) && i < m
    ensures first + w <= rows && Column(w, i + 1, 0, first + w)
  {
    MulNext(i, m, w);
  }
}

/** Schedules of packet operations, and what the two compilers promise about them.

    A schedule works on k + m devices of w packets each. The state is one vector with packet y of
    device d at position d*w + y, so the k*w data packets come first and coding row i of a bitmatrix
    writes position k*w + i. All packets behave alike at every bit, so one bit stands for a packet. */
module Schedules {
  import opened Arithmetic
  import opened Fields
  import opened LinearAlgebra

  /** Copy or xor one packet onto another. The five fields are elements 0 to 4 of the C tuple. */
  datatype Op = Op(srcDev: int, srcPkt: nat, dstDev: nat, dstPkt: nat, isXor: bool)

  // cols data packets and rows coding packets. Hidden where only the sizes matter.
  ghost predicate Shape(k: nat, m: nat, w: nat, cols: nat, rows: nat) {
    0 < w && cols == k * w && rows == m * w
  }

  function Src(w: nat, op: Op): int { op.srcDev * w + op.srcPkt }

  function Dst(w: nat, op: Op): int { op.dstDev * w + op.dstPkt }

  ghost predicate Fits(devs: nat, w: nat, ops: seq<Op>) {
    forall s | 0 <= s < |ops| ::
      0 <= ops[s].srcDev < devs && ops[s].srcPkt < w && ops[s].dstDev < devs && ops[s].dstPkt < w
  }

  function Step(w: nat, P: seq<bool>, op: Op): (r: seq<bool>)
    ensures |r| == |P|
  {
    var s, d := Src(w, op), Dst(w, op);
    if 0 <= s < |P| && 0 <= d < |P| then P[d := if op.isXor then P[d] != P[s] else P[s]] else P
  }

  function Run(w: nat, P: seq<bool>, ops: seq<Op>): (r: seq<bool>)
    ensures |r| == |P|
  {
    if |ops| == 0 then P else Step(w, Run(w, P, ops[..|ops| - 1]), ops[|ops| - 1])
  }

  lemma {:induction false} RunAppend(w: nat, P: seq<bool>, a: seq<Op>, b: seq<Op>)
    ensures Run(w, P, a + b) == Run(w, Run(w, P, a), b)
  {
    if |b| == 0 {
      assert a + b == a;
    } else {
      assert (a + b)[..|a + b| - 1] == a + b[..|b| - 1];
      RunAppend(w, P, a, b[..|b| - 1]);
    }
  }

  // The number of ones among the first n bits.
  function Ones(row: seq<bool>, n: nat): (o: nat)
    requires n <= |row|
    ensures o <= n
  {
    if n == 0 then 0 else Ones(row, n - 1) + if row[n - 1] then 1 else 0
  }

  // The number of differences among the first n bits.
  function Distance(a: seq<bool>, b: seq<bool>, n: nat): (o: nat)
    requires n <= |a| && n <= |b|
    ensures o <= n
  {
    if n == 0 then 0 else Distance(a, b, n - 1) + if a[n - 1] != b[n - 1] then 1 else 0
  }

  // A row without ones is skipped by every encoder: its target keeps what it held.
  function RowValue(row: seq<bool>, data: seq<bool>, was: bool): bool
    requires |row| == |data|
  {
    if Ones(row, |row|) > 0 then Dot(F2, row, data) else was
  }

  ghost predicate IsBitmatrix(B: seq<seq<bool>>, rows: nat, cols: nat) {
    |B| == rows && forall i | 0 <= i < rows :: |B[i]| == cols
  }

  // The state after the coding rows in the given set have been computed.
  ghost function EncodedOn(cols: nat, B: seq<seq<bool>>, P: seq<bool>, done: set<nat>): (r: seq<bool>)
    requires IsBitmatrix(B, |B|, cols) && |P| == cols + |B|
    ensures |r| == |P|
  {
    seq(|P|, q requires 0 <= q < |P| =>
      if q >= cols && q - cols in done then RowValue(B[q - cols], P[..cols], P[q]) else P[q])
  }

  ghost function AllRows(n: nat): (s: set<nat>)
    ensures forall i: nat :: i in s <==> i < n
  {
    if n == 0 then {} else AllRows(n - 1) + {n - 1}
  }

  /** The state after encoding: every coding packet is its row's product with the data. */
  ghost function Encoded(cols: nat, B: seq<seq<bool>>, P: seq<bool>): (r: seq<bool>)
    requires IsBitmatrix(B, |B|, cols) && |P| == cols + |B|
    ensures |r| == |P|
  {
    EncodedOn(cols, B, P, AllRows(|B|))
  }

  /** A list of operations that encodes with B whatever the state it starts from. */
  ghost predicate Computes(devs: nat, w: nat, cols: nat, B: seq<seq<bool>>, ops: seq<Op>)
    requires IsBitmatrix(B, |B|, cols)
  {
    && Fits(devs, w, ops)
    && forall P | |P| == cols + |B| :: Run(w, P, ops) == Encoded(cols, B, P)
  }

  // ---- The operations for one row.

  // Packet s counted from device a, onto packet d counted from device b.
  function Link(w: nat, a: nat, s: nat, b: nat, d: nat, isXor: bool): Op
    requires 0 < w
  {
    Op(a + s / w, s % w, b + d / w, d % w, isXor)
  }

  // Build row i from the data packets.
  function FromScratch(k: nat, w: nat, row: seq<bool>, i: nat, n: nat): (ops: seq<Op>)
    requires 0 < w && n <= |row|
    ensures |ops| == Ones(row, n)
  {
    if n == 0 then [] else
      var before := FromScratch(k, w, row, i, n - 1);
      if row[n - 1] then before + [Link(w, 0, n - 1, k, i, Ones(row, n - 1) > 0)] else before
  }

  // Change row i from the product of base to the product of row.
  function Fixups(k: nat, w: nat, row: seq<bool>, base: seq<bool>, i: nat, n: nat): (ops: seq<Op>)
    requires 0 < w && n <= |row| && n <= |base|
    ensures |ops| == Distance(row, base, n)
  {
    if n == 0 then [] else
      var before := Fixups(k, w, row, base, i, n - 1);
      if row[n - 1] != base[n - 1] then before + [Link(w, 0, n - 1, k, i, true)] else before
  }

  lemma DataLink(k: nat, m: nat, w: nat, cols: nat, rows: nat, s: nat, i: nat, isXor: bool)
    requires Shape(k, m, w, cols, rows) && i < rows && s < cols
    ensures Fits(k + m, w, [Link(w, 0, s, k, i, isXor)])
    ensures Src(w, Link(w, 0, s, k, i, isXor)) == s
    ensures Dst(w, Link(w, 0, s, k, i, isXor)) == cols + i
    ensures Link(w, 0, s, k, i, isXor).isXor == isXor
  {
    Position(w, 0, s);
    Position(w, k, i);
    DeviceBound(w, k, s);
    DeviceBound(w, m, i);
  }

  lemma CodingLink(k: nat, m: nat, w: nat, cols: nat, rows: nat, s: nat, i: nat, isXor: bool)
    requires Shape(k, m, w, cols, rows) && i < rows && s < rows
    ensures Fits(k + m, w, [Link(w, k, s, k, i, isXor)])
    ensures Src(w, Link(w, k, s, k, i, isXor)) == cols + s
    ensures Dst(w, Link(w, k, s, k, i, isXor)) == cols + i
    ensures Link(w, k, s, k, i, isXor).isXor == isXor
  {
    hide Shape;
    CodingEnd(k, m, w, cols, rows, s);
    CodingEnd(k, m, w, cols, rows, i);
  }

  lemma CodingEnd(k: nat, m: nat, w: nat, cols: nat, rows: nat, i: nat)
    requires Shape(k, m, w, cols, rows) && i < rows
    ensures 0 < w && k + i / w < k + m && i % w < w && (k + i / w) * w + i % w == cols + i
  {
    Position(w, k, i);
    DeviceBound(w, m, i);
  }

  lemma RunNone(w: nat, P: seq<bool>)
    ensures Run(w, P, []) == P
  {
  }

  lemma RunOne(w: nat, P: seq<bool>, op: Op)
    ensures Run(w, P, [op]) == Step(w, P, op)
  {
    assert [op][..0] == [];
  }

  // One operation from an untouched packet s onto packet c.
  lemma StepOnto(w: nat, P: seq<bool>, c: nat, v: bool, s: nat, op: Op)
    requires s < |P| && c < |P| && s != c && Src(w, op) == s && Dst(w, op) == c
    ensures Step(w, P[c := v], op) == P[c := if op.isXor then v != P[s] else P[s]]
  {
  }

  lemma BitDotStep(row: seq<bool>, data: seq<bool>, n: nat)
    requires n <= |row| && n <= |data|
    ensures DotTo(F2, row, data, n) == (n != 0 && DotTo(F2, row, data, n - 1) != (row[n - 1] && data[n - 1]))
  {
  }

  lemma RunSnoc(w: nat, P: seq<bool>, ops: seq<Op>, op: Op)
    ensures Run(w, P, ops + [op]) == Step(w, Run(w, P, ops), op)
  {
    assert (ops + [op])[..|ops|] == ops;
  }

  lemma {:induction false} FromScratchRuns(k: nat, m: nat, w: nat, cols: nat, rows: nat, row: seq<bool>, i: nat, n: nat,
                                           P: seq<bool>)
    requires Shape(k, m, w, cols, rows) && 0 < w && n <= |row| == cols && i < rows && |P| == cols + rows
    ensures Fits(k + m, w, FromScratch(k, w, row, i, n))
    ensures Run(w, P, FromScratch(k, w, row, i, n)) ==
      if Ones(row, n) == 0 then P else P[cols + i := DotTo(F2, row, P[..cols], n)]
    ensures Ones(row, n) == 0 ==> !DotTo(F2, row, P[..cols], n)
  {
    hide Shape, Link, Step, Run, DotTo;
    RunNone(w, P);
    BitDotStep(row, P[..cols], n);
    if n > 0 {
      FromScratchRuns(k, m, w, cols, rows, row, i, n - 1, P);
      if row[n - 1] {
        var op := Link(w, 0, n - 1, k, i, Ones(row, n - 1) > 0);
        var v := if Ones(row, n - 1) == 0 then P[cols + i] else DotTo(F2, row, P[..cols], n - 1);
        DataLink(k, m, w, cols, rows, n - 1, i, Ones(row, n - 1) > 0);
        RunSnoc(w, P, FromScratch(k, w, row, i, n - 1), op);
        assert P[cols + i := P[cols + i]] == P;
        StepOnto(w, P, cols + i, v, n - 1, op);
      }
    }
  }

  lemma {:induction false} FixupsRun(k: nat, m: nat, w: nat, cols: nat, rows: nat, row: seq<bool>, base: seq<bool>,
                                     i: nat, n: nat, P: seq<bool>)
    requires Shape(k, m, w, cols, rows) && 0 < w && n <= |row| == |base| == cols && i < rows && |P| == cols + rows
    ensures Fits(k + m, w, Fixups(k, w, row, base, i, n))
    ensures Run(w, P, Fixups(k, w, row, base, i, n)) ==
      P[cols + i := P[cols + i] != (DotTo(F2, row, P[..cols], n) != DotTo(F2, base, P[..cols], n))]
  {
    hide Shape, Link, Step, Run, DotTo;
    RunNone(w, P);
    BitDotStep(row, P[..cols], n);
    BitDotStep(base, P[..cols], n);
    if n > 0 {
      FixupsRun(k, m, w, cols, rows, row, base, i, n - 1, P);
      if row[n - 1] != base[n - 1] {
        var op := Link(w, 0, n - 1, k, i, true);
        var v := P[cols + i] != (DotTo(F2, row, P[..cols], n - 1) != DotTo(F2, base, P[..cols], n - 1));
        DataLink(k, m, w, cols, rows, n - 1, i, true);
        RunSnoc(w, P, Fixups(k, w, row, base, i, n - 1), op);
        StepOnto(w, P, cols + i, v, n - 1, op);
      }
    } else {
      assert P[cols + i := P[cols + i]] == P;
    }
  }

  // ---- A schedule as a sequence of rows, each built from scratch or from another row.

  /** Compute row; from is the row it is derived from, or -1. */
  datatype Choice = Choice(row: nat, from: int)

  function EmitChoice(k: nat, w: nat, B: seq<seq<bool>>, c: Choice): seq<Op>
    requires 0 < w && c.row < |B| && -1 <= c.from < |B|
    requires c.from >= 0 ==> |B[c.from]| == |B[c.row]|
  {
    if c.from == -1 then FromScratch(k, w, B[c.row], c.row, |B[c.row]|)
    else [Link(w, k, c.from, k, c.row, false)] + Fixups(k, w, B[c.row], B[c.from], c.row, |B[c.row]|)
  }

  ghost predicate Choices(B: seq<seq<bool>>, order: seq<Choice>) {
    forall s | 0 <= s < |order| :: order[s].row < |B| && -1 <= order[s].from < |B|
  }

  ghost function Emit(k: nat, w: nat, cols: nat, B: seq<seq<bool>>, order: seq<Choice>): seq<Op>
    requires 0 < w && IsBitmatrix(B, |B|, cols) && Choices(B, order)
  {
    if |order| == 0 then [] else
      Emit(k, w, cols, B, order[..|order| - 1]) + EmitChoice(k, w, B, order[|order| - 1])
  }

  ghost function Scheduled(order: seq<Choice>): set<nat> {
    set s | 0 <= s < |order| :: order[s].row
  }

  // No row twice, and every row that is derived comes after the nonzero row it is derived from.
  ghost predicate Orderly(B: seq<seq<bool>>, order: seq<Choice>) {
    && Choices(B, order)
    && forall s | 0 <= s < |order| ::
      && order[s].row !in Scheduled(order[..s])
      && (order[s].from >= 0 ==>
            && order[s].from in Scheduled(order[..s])
            && Ones(B[order[s].from], |B[order[s].from]|) > 0
            && Ones(B[order[s].row], |B[order[s].row]|) > 0)
  }

  lemma ScheduledAppend(order: seq<Choice>, c: Choice)
    ensures Scheduled(order + [c]) == Scheduled(order) + {c.row}
  {
    var all := order + [c];
    forall r | r in Scheduled(order)
      ensures r in Scheduled(all)
    {
      var s :| 0 <= s < |order| && order[s].row == r;
      assert all[s].row == r;
    }
    assert all[|order|].row == c.row;
  }

  lemma OrderlyPrefix(B: seq<seq<bool>>, order: seq<Choice>, n: nat)
    requires Orderly(B, order) && n <= |order|
    ensures Orderly(B, order[..n])
  {
    forall s | 0 <= s < n
      ensures order[..n][..s] == order[..s]
    {
    }
  }

  lemma OrderlyAppend(B: seq<seq<bool>>, order: seq<Choice>, c: Choice)
    requires Orderly(B, order) && c.row < |B| && -1 <= c.from < |B| && c.row !in Scheduled(order)
    requires c.from >= 0 ==> c.from in Scheduled(order)
    requires c.from >= 0 ==> Ones(B[c.from], |B[c.from]|) > 0 && Ones(B[c.row], |B[c.row]|) > 0
    ensures Orderly(B, order + [c])
  {
    forall s | 0 <= s <= |order|
      ensures (order + [c])[..s] == order[..s]
    {
    }
    assert order[..|order|] == order;
  }

  lemma EmitLast(k: nat, w: nat, cols: nat, B: seq<seq<bool>>, order: seq<Choice>)
    requires 0 < w && IsBitmatrix(B, |B|, cols) && Choices(B, order)
    ensures |order| == 0 ==> Emit(k, w, cols, B, order) == []
    ensures |order| > 0 ==> Choices(B, order[..|order| - 1])
    ensures |order| > 0 ==>
      Emit(k, w, cols, B, order) == Emit(k, w, cols, B, order[..|order| - 1]) + EmitChoice(k, w, B, order[|order| - 1])
  {
  }

  lemma NothingScheduled(w: nat, cols: nat, B: seq<seq<bool>>, P: seq<bool>, order: seq<Choice>)
    requires IsBitmatrix(B, |B|, cols) && |P| == cols + |B| && |order| == 0
    ensures Run(w, P, []) == EncodedOn(cols, B, P, Scheduled(order))
  {
  }

  /** An orderly schedule computes exactly the rows it lists. */
  lemma {:induction false} EmitRuns(k: nat, m: nat, w: nat, cols: nat, rows: nat, B: seq<seq<bool>>, order: seq<Choice>,
                                    P: seq<bool>)
    requires Shape(k, m, w, cols, rows) && 0 < w && IsBitmatrix(B, rows, cols) && Orderly(B, order)
    requires |P| == cols + rows
    ensures Fits(k + m, w, Emit(k, w, cols, B, order))
    ensures Run(w, P, Emit(k, w, cols, B, order)) == EncodedOn(cols, B, P, Scheduled(order))
  {
    hide Shape, EmitChoice, Run, EncodedOn, Emit;
    EmitLast(k, w, cols, B, order);
    if |order| == 0 {
      NothingScheduled(w, cols, B, P, order);
    } else {
      var n := |order| - 1;
      var rest, c := order[..n], order[n];
      var before := Emit(k, w, cols, B, rest);
      OrderlyPrefix(B, order, n);
      EmitRuns(k, m, w, cols, rows, B, rest, P);
      assert order == rest + [c];
      ScheduledAppend(rest, c);
      RunAppend(w, P, before, EmitChoice(k, w, B, c));
      ChoiceRuns(k, m, w, cols, rows, B, c, Scheduled(rest), P);
    }
  }

  lemma EncodeOneMore(cols: nat, B: seq<seq<bool>>, P: seq<bool>, done: set<nat>, i: nat)
    requires IsBitmatrix(B, |B|, cols) && |P| == cols + |B| && i < |B| && i !in done
    ensures EncodedOn(cols, B, P, done)[..cols] == P[..cols]
    ensures EncodedOn(cols, B, P, done)[cols + i] == P[cols + i]
    ensures EncodedOn(cols, B, P, done + {i}) ==
      EncodedOn(cols, B, P, done)[cols + i := RowValue(B[i], P[..cols], P[cols + i])]
  {
  }

  lemma CopyRuns(k: nat, m: nat, w: nat, cols: nat, rows: nat, f: nat, i: nat, S: seq<bool>)
    requires Shape(k, m, w, cols, rows) && 0 < w && |S| == cols + rows && f < rows && i < rows && f != i
    ensures Run(w, S, [Link(w, k, f, k, i, false)]) == S[cols + i := S[cols + f]]
  {
    hide Shape, Link, Step, Run;
    var copy := Link(w, k, f, k, i, false);
    CodingLink(k, m, w, cols, rows, f, i, false);
    RunOne(w, S, copy);
    assert S[cols + i := S[cols + i]] == S;
    StepOnto(w, S, cols + i, S[cols + i], cols + f, copy);
  }

  lemma DerivedRuns(k: nat, m: nat, w: nat, cols: nat, rows: nat, row: seq<bool>, base: seq<bool>, f: nat, i: nat,
                    S: seq<bool>)
    requires Shape(k, m, w, cols, rows) && 0 < w && |row| == |base| == cols && |S| == cols + rows
    requires f < rows && i < rows && f != i && S[cols + f] == Dot(F2, base, S[..cols])
    ensures Fits(k + m, w, [Link(w, k, f, k, i, false)] + Fixups(k, w, row, base, i, cols))
    ensures Run(w, S, [Link(w, k, f, k, i, false)] + Fixups(k, w, row, base, i, cols)) ==
      S[cols + i := Dot(F2, row, S[..cols])]
  {
    hide Shape, Link, Step, Run, DotTo;
    var copy := Link(w, k, f, k, i, false);
    CodingLink(k, m, w, cols, rows, f, i, false);
    var S1 := S[cols + i := S[cols + f]];
    CopyRuns(k, m, w, cols, rows, f, i, S);
    RunAppend(w, S, [copy], Fixups(k, w, row, base, i, cols));
    assert S1[..cols] == S[..cols];
    FixupsRun(k, m, w, cols, rows, row, base, i, cols, S1);
  }

  lemma EncodedSource(cols: nat, B: seq<seq<bool>>, P: seq<bool>, done: set<nat>, f: nat)
    requires IsBitmatrix(B, |B|, cols) && |P| == cols + |B| && f < |B| && f in done && Ones(B[f], cols) > 0
    ensures EncodedOn(cols, B, P, done)[cols + f] == Dot(F2, B[f], P[..cols])
  {
  }

  lemma ChoiceRuns(k: nat, m: nat, w: nat, cols: nat, rows: nat, B: seq<seq<bool>>, c: Choice, done: set<nat>,
                   P: seq<bool>)
    requires Shape(k, m, w, cols, rows) && 0 < w && IsBitmatrix(B, rows, cols) && |P| == cols + rows
    requires c.row < |B| && -1 <= c.from < |B| && c.row !in done
    requires c.from >= 0 ==> c.from in done && Ones(B[c.from], cols) > 0 && Ones(B[c.row], cols) > 0
    ensures Fits(k + m, w, EmitChoice(k, w, B, c))
    ensures Run(w, EncodedOn(cols, B, P, done), EmitChoice(k, w, B, c)) == EncodedOn(cols, B, P, done + {c.row})
  {
    hide Shape, Link, Run, DotTo, FromScratch, Fixups, Fits, EncodedOn;
    var S := EncodedOn(cols, B, P, done);
    EncodeOneMore(cols, B, P, done, c.row);
    if c.from == -1 {
      FromScratchRuns(k, m, w, cols, rows, B[c.row], c.row, cols, S);
      assert S[cols + c.row := S[cols + c.row]] == S;
    } else {
      EncodedSource(cols, B, P, done, c.from);
      DerivedRuns(k, m, w, cols, rows, B[c.row], B[c.from], c.from, c.row, S);
    }
  }
}

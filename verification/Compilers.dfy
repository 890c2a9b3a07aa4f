/** The two compilers from a bitmatrix to a schedule. */
module Compilers {
  import opened Arithmetic
  import opened Schedules
  import opened SpanningPlans
  import opened Elimination

  /** The list that operations holds: everything before its first entry with a negative source. */
  ghost predicate IsSchedule(operations: array<Op>, ops: seq<Op>)
    reads operations
  {
    && |ops| < operations.Length
    && operations[..|ops|] == ops
    && operations[|ops|].srcDev < 0
    && forall s | 0 <= s < |ops| :: ops[s].srcDev >= 0
  }

  const END_MARK := Op(-1, 0, 0, 0, false)

  method CloseSchedule(operations: array<Op>, op: nat, ghost ops: seq<Op>)
    requires op < operations.Length && ops == operations[..op]
    requires forall s | 0 <= s < |ops| :: ops[s].srcDev >= 0
    modifies operations
    ensures IsSchedule(operations, ops)
  {
    operations[op] := END_MARK;
  }

  // Append the operations that build row i from scratch.
  lemma NoScratch(k: nat, w: nat, row: seq<bool>, i: nat)
    requires 0 < w
    ensures FromScratch(k, w, row, i, 0) == [] && Ones(row, 0) == 0
  {
  }

  lemma NextScratch(k: nat, w: nat, row: seq<bool>, i: nat, j: nat, ops: seq<Op>)
    requires 0 < w && j < |row|
    ensures Ones(row, j + 1) == Ones(row, j) + if row[j] then 1 else 0
    ensures !row[j] ==> FromScratch(k, w, row, i, j + 1) == FromScratch(k, w, row, i, j)
    ensures row[j] ==>
      ops + FromScratch(k, w, row, i, j + 1) ==
      ops + FromScratch(k, w, row, i, j) + [Op(j / w, j % w, k + i / w, i % w, Ones(row, j) > 0)]
  {
  }

  method EmitFromScratch(k: nat, w: nat, bitmatrix: array2<bool>, i: nat, operations: array<Op>, op: nat)
    returns (op': nat)
    requires 0 < w && i < bitmatrix.Length0
    requires op + Ones(Rows(bitmatrix)[i], bitmatrix.Length1) <= operations.Length
    modifies operations
    ensures op' <= operations.Length
    ensures operations[..op'] == old(operations[..op]) + FromScratch(k, w, Rows(bitmatrix)[i], i, bitmatrix.Length1)
  {
    hide Ones, FromScratch, Link, Rows;
    ghost var row := Rows(bitmatrix)[i];
    ghost var before := operations[..op];
    NoScratch(k, w, row, i);
    OnesMonotone(row, 0, bitmatrix.Length1);
    op' := op;
    var optodo := false;
    for j := 0 to bitmatrix.Length1
      invariant op' == op + Ones(row, j) <= operations.Length
      invariant optodo == (Ones(row, j) > 0)
      invariant operations[..op'] == before + FromScratch(k, w, row, i, j)
    {
      OnesMonotone(row, j + 1, bitmatrix.Length1);
      NextScratch(k, w, row, i, j, before);
      if bitmatrix[i, j] {
        operations[op'] := Op(j / w, j % w, k + i / w, i % w, optodo);
        optodo := true;
        op' := op' + 1;
        assert operations[..op'] == operations[..op' - 1] + [operations[op' - 1]];
      }
    }
  }

  lemma OnesMonotone(row: seq<bool>, a: nat, b: nat)
    requires a <= b <= |row|
    ensures Ones(row, a) <= Ones(row, b)
  {
  }

  lemma DistanceMonotone(row: seq<bool>, base: seq<bool>, a: nat, b: nat)
    requires a <= b <= |row| == |base|
    ensures Distance(row, base, a) <= Distance(row, base, b)
  {
  }

  // Append the operations that derive row i from row f.
  lemma NoFixups(k: nat, w: nat, row: seq<bool>, base: seq<bool>, i: nat, f: nat)
    requires 0 < w
    ensures Fixups(k, w, row, base, i, 0) == [] && Distance(row, base, 0) == 0
    ensures Link(w, k, f, k, i, false) == Op(k + f / w, f % w, k + i / w, i % w, false)
  {
  }

  lemma NextFixup(k: nat, w: nat, row: seq<bool>, base: seq<bool>, i: nat, j: nat, ops: seq<Op>)
    requires 0 < w && j < |row| && j < |base|
    ensures Distance(row, base, j + 1) == Distance(row, base, j) + if row[j] != base[j] then 1 else 0
    ensures row[j] == base[j] ==> Fixups(k, w, row, base, i, j + 1) == Fixups(k, w, row, base, i, j)
    ensures row[j] != base[j] ==>
      ops + Fixups(k, w, row, base, i, j + 1) ==
      ops + Fixups(k, w, row, base, i, j) + [Op(j / w, j % w, k + i / w, i % w, true)]
  {
  }

  method EmitFromRow(k: nat, w: nat, bitmatrix: array2<bool>, i: nat, f: nat, operations: array<Op>, op: nat)
    returns (op': nat)
    requires 0 < w && i < bitmatrix.Length0 && f < bitmatrix.Length0
    requires op + 1 + Distance(Rows(bitmatrix)[i], Rows(bitmatrix)[f], bitmatrix.Length1) <= operations.Length
    modifies operations
    ensures op' <= operations.Length
    ensures operations[..op'] == old(operations[..op]) +
      ([Link(w, k, f, k, i, false)] + Fixups(k, w, Rows(bitmatrix)[i], Rows(bitmatrix)[f], i, bitmatrix.Length1))
  {
    hide Fixups, Distance, Link, Rows;
    ghost var row, base := Rows(bitmatrix)[i], Rows(bitmatrix)[f];
    ghost var before := operations[..op];
    ghost var copy := [Link(w, k, f, k, i, false)];
    DistanceMonotone(row, base, 0, bitmatrix.Length1);
    NoFixups(k, w, row, base, i, f);
    operations[op] := Op(k + f / w, f % w, k + i / w, i % w, false);
    op' := op + 1;
    assert operations[..op'] == before + [operations[op]];
    for j := 0 to bitmatrix.Length1
      invariant op' == op + 1 + Distance(row, base, j) <= operations.Length
      invariant operations[..op'] == before + copy + Fixups(k, w, row, base, i, j)
    {
      DistanceMonotone(row, base, j + 1, bitmatrix.Length1);
      NextFixup(k, w, row, base, i, j, before + copy);
      if bitmatrix[i, j] != bitmatrix[f, j] {
        operations[op'] := Op(j / w, j % w, k + i / w, i % w, true);
        op' := op' + 1;
        assert operations[..op'] == operations[..op' - 1] + [operations[op' - 1]];
      }
    }
    ghost var fixups := Fixups(k, w, row, base, i, bitmatrix.Length1);
    assert before + copy + fixups == before + (copy + fixups);
  }

  // ---- jerasure_dumb_bitmatrix_to_schedule

  ghost function ScratchOrder(n: nat): seq<Choice> {
    if n == 0 then [] else ScratchOrder(n - 1) + [Choice(n - 1, -1)]
  }

  // The operations for rows a to b, each from scratch.
  ghost function RowOps(k: nat, w: nat, cols: nat, B: seq<seq<bool>>, a: nat, b: nat): (ops: seq<Op>)
    requires 0 < w && IsBitmatrix(B, |B|, cols) && a <= b <= |B|
  {
    if a == b then [] else RowOps(k, w, cols, B, a, b - 1) + FromScratch(k, w, B[b - 1], b - 1, cols)
  }

  lemma RowOpsAppend(k: nat, w: nat, cols: nat, B: seq<seq<bool>>, a: nat, b: nat, c: nat)
    requires 0 < w && IsBitmatrix(B, |B|, cols) && a <= b <= c <= |B|
    ensures RowOps(k, w, cols, B, a, c) == RowOps(k, w, cols, B, a, b) + RowOps(k, w, cols, B, b, c)
  {
  }

  lemma ScratchOrderFacts(k: nat, w: nat, cols: nat, B: seq<seq<bool>>, n: nat)
    requires 0 < w && IsBitmatrix(B, |B|, cols) && n <= |B|
    ensures Orderly(B, ScratchOrder(n)) && Scheduled(ScratchOrder(n)) == AllRows(n)
    ensures Emit(k, w, cols, B, ScratchOrder(n)) == RowOps(k, w, cols, B, 0, n)
  {
    if n > 0 {
      ScratchOrderFacts(k, w, cols, B, n - 1);
      ScheduledAppend(ScratchOrder(n - 1), Choice(n - 1, -1));
      OrderlyAppend(B, ScratchOrder(n - 1), Choice(n - 1, -1));
      assert ScratchOrder(n)[..|ScratchOrder(n)| - 1] == ScratchOrder(n - 1);
    }
  }

  // The entries the compilers allocate: one per one in a full bitmatrix, and the end mark.
  function Capacity(k: nat, m: nat, w: nat): nat { k * m * w * w + 1 }

  lemma CapacityFits(k: nat, m: nat, w: nat, cols: nat, rows: nat, B: seq<seq<bool>>)
    requires Shape(k, m, w, cols, rows) && IsBitmatrix(B, rows, cols)
    ensures forall n | 0 <= n <= rows :: TotalOnes(cols, B, n) < Capacity(k, m, w)
    ensures 0 < Capacity(k, m, w)
  {
    assert rows * cols == (m * w) * (k * w);
    assert (m * w) * (k * w) == k * (m * w) * w;
    assert k * (m * w) == k * m * w;
    forall n | 0 <= n <= rows
      ensures TotalOnes(cols, B, n) <= rows * cols
    {
      TotalOnesBound(cols, B, n);
      MulMonotone(n, rows, cols);
    }
  }

  lemma OrderComputes(k: nat, m: nat, w: nat, cols: nat, rows: nat, B: seq<seq<bool>>, order: seq<Choice>)
    requires Shape(k, m, w, cols, rows) && 0 < w && IsBitmatrix(B, rows, cols)
    requires Orderly(B, order) && Scheduled(order) == AllRows(|B|)
    ensures Computes(k + m, w, cols, B, Emit(k, w, cols, B, order))
    ensures forall s | 0 <= s < |Emit(k, w, cols, B, order)| :: Emit(k, w, cols, B, order)[s].srcDev >= 0
  {
    hide Shape, Emit, Run;
    forall P | |P| == cols + rows
      ensures Run(w, P, Emit(k, w, cols, B, order)) == Encoded(cols, B, P)
    {
      EmitRuns(k, m, w, cols, rows, B, order, P);
    }
    EmitRuns(k, m, w, cols, rows, B, order, seq(cols + rows, i => false));
  }

  /** Every row from scratch, in order. */
  method DumbBitmatrixToSchedule(k: nat, m: nat, w: nat, bitmatrix: array2<bool>)
    returns (operations: array<Op>, ghost ops: seq<Op>)
    requires 0 < w && Shape(k, m, w, bitmatrix.Length1, bitmatrix.Length0)
    ensures fresh(operations) && operations.Length == Capacity(k, m, w)
    ensures IsSchedule(operations, ops) && Computes(k + m, w, bitmatrix.Length1, Rows(bitmatrix), ops)
    ensures |ops| == TotalOnes(bitmatrix.Length1, Rows(bitmatrix), bitmatrix.Length0)
  {
    hide Shape, Capacity, Rows, Emit, FromScratch, Computes, Orderly, Scheduled;
    ghost var cols, rows, B := bitmatrix.Length1, bitmatrix.Length0, Rows(bitmatrix);
    CapacityFits(k, m, w, cols, rows, B);
    operations := new Op[Capacity(k, m, w)](i => END_MARK);
    var op: nat := 0;
    for i := 0 to bitmatrix.Length0
      invariant op == TotalOnes(cols, B, i) < operations.Length
      invariant operations[..op] == RowOps(k, w, cols, B, 0, i)
    {
      assert TotalOnes(cols, B, i + 1) < operations.Length;
      op := EmitFromScratch(k, w, bitmatrix, i, operations, op);
    }
    ops := operations[..op];
    ScratchOrderFacts(k, w, cols, B, rows);
    OrderComputes(k, m, w, cols, rows, B, ScratchOrder(rows));
    CloseSchedule(operations, op, ops);
  }

  // ---- jerasure_smart_bitmatrix_to_schedule

  /** The doubly linked list of the rows still to do: flink and blink hold exactly todo, in order. */
  ghost predicate Linked(flink: array<int>, blink: array<int>, top: int, todo: seq<nat>)
    reads flink, blink
  {
    && flink.Length == blink.Length
    && (forall s | 0 <= s < |todo| :: 0 <= todo[s] < flink.Length)
    && (forall s, t | 0 <= s < t < |todo| :: todo[s] != todo[t])
    && top == (if |todo| == 0 then -1 else todo[0])
    && (forall s {:trigger flink[todo[s]]} | 0 <= s < |todo| ::
          flink[todo[s]] == if s + 1 < |todo| then todo[s + 1] else -1)
    && (forall s {:trigger blink[todo[s]]} | 0 <= s < |todo| :: blink[todo[s]] == if s > 0 then todo[s - 1] else -1)
  }

  // The neighbours of entry s of the list.
  ghost predicate Neighbours(flink: seq<int>, blink: seq<int>, todo: seq<nat>, s: nat) {
    && s < |todo| && todo[s] < |flink| == |blink|
    && (s + 1 < |todo| ==> flink[todo[s]] == todo[s + 1]) && (s + 1 == |todo| ==> flink[todo[s]] == -1)
    && (s > 0 ==> blink[todo[s]] == todo[s - 1]) && (s == 0 ==> blink[todo[s]] == -1)
  }

  lemma LinkedNeighbours(flink: array<int>, blink: array<int>, top: int, todo: seq<nat>)
    requires Linked(flink, blink, top, todo)
    ensures forall s | 0 <= s < |todo| :: Neighbours(flink[..], blink[..], todo, s)
  {
    forall s | 0 <= s < |todo|
      ensures Neighbours(flink[..], blink[..], todo, s)
    {
      assert flink[todo[s]] == flink[..][todo[s]] && blink[todo[s]] == blink[..][todo[s]];
    }
  }

  lemma NeighboursLinked(flink: array<int>, blink: array<int>, top: int, todo: seq<nat>)
    requires flink.Length == blink.Length && top == if |todo| == 0 then -1 else todo[0]
    requires forall s, t | 0 <= s < t < |todo| :: todo[s] != todo[t]
    requires forall s | 0 <= s < |todo| :: Neighbours(flink[..], blink[..], todo, s)
    ensures Linked(flink, blink, top, todo)
  {
    forall s | 0 <= s < |todo|
      ensures 0 <= todo[s] < flink.Length
      ensures flink[todo[s]] == if s + 1 < |todo| then todo[s + 1] else -1
      ensures blink[todo[s]] == if s > 0 then todo[s - 1] else -1
    {
      assert Neighbours(flink[..], blink[..], todo, s);
    }
  }

  function Without(todo: seq<nat>, p: nat): (rest: seq<nat>)
    requires p < |todo|
    ensures |rest| == |todo| - 1
    ensures forall s | 0 <= s < |rest| :: (s < p ==> rest[s] == todo[s]) && (s >= p ==> rest[s] == todo[s + 1])
  {
    todo[..p] + todo[p + 1..]
  }

  // Joining the neighbours of entry p takes it out.
  lemma JoinNeighbours(flink: seq<int>, blink: seq<int>, todo: seq<nat>, p: nat, flink': seq<int>, blink': seq<int>,
                       s: nat)
    requires |flink| == |blink| && forall t | 0 <= t < |todo| :: todo[t] < |flink|
    requires forall t | 0 <= t < |todo| :: Neighbours(flink, blink, todo, t)
    requires forall t, u | 0 <= t < u < |todo| :: todo[t] != todo[u]
    requires p < |todo| && s + 1 < |todo|
    requires flink' == if p > 0 then flink[todo[p - 1] := if p + 1 < |todo| then todo[p + 1] else -1] else flink
    requires blink' == if p + 1 < |todo| then blink[todo[p + 1] := if p > 0 then todo[p - 1] else -1] else blink
    ensures Neighbours(flink', blink', Without(todo, p), s)
  {
    hide Without;
    var t := if s < p then s else s + 1;
    assert Neighbours(flink, blink, todo, t);
  }

  // Take todo[p] out of the list.
  method Unlink(flink: array<int>, blink: array<int>, top: int, row: nat, ghost todo: seq<nat>, ghost p: nat)
    returns (top': int)
    requires flink != blink && Linked(flink, blink, top, todo) && p < |todo| && todo[p] == row
    modifies flink, blink
    ensures Linked(flink, blink, top', todo[..p] + todo[p + 1..])
  {
    hide Without, Neighbours;
    top' := top;
    ghost var was, was' := flink[..], blink[..];
    LinkedNeighbours(flink, blink, top, todo);
    assert flink[todo[p]] == flink[row] && blink[todo[p]] == blink[row];
    if blink[row] == -1 {
      top' := flink[row];
      if top' != -1 {
        blink[top'] := -1;
      }
    } else {
      flink[blink[row]] := flink[row];
      if flink[row] != -1 {
        blink[flink[row]] := blink[row];
      }
    }
    forall s | 0 <= s < |todo| - 1
      ensures Neighbours(flink[..], blink[..], Without(todo, p), s)
    {
      JoinNeighbours(was, was', todo, p, flink[..], blink[..], s);
    }
    WithoutDistinct(todo, p);
    NeighboursLinked(flink, blink, top', Without(todo, p));
  }

  lemma WithoutDistinct(todo: seq<nat>, p: nat)
    requires p < |todo| && forall s, t | 0 <= s < t < |todo| :: todo[s] != todo[t]
    ensures Without(todo, p) == todo[..p] + todo[p + 1..]
    ensures forall s, t | 0 <= s < t < |todo| - 1 :: Without(todo, p)[s] != Without(todo, p)[t]
  {
  }

  // What is known of one row still to do: diff is the weight of its cheapest edge to a row already
  // done, or of building it from scratch, and from names that row.
  ghost predicate Reached(cols: nat, B: seq<seq<bool>>, done: set<nat>, diff: int, from: int, i: nat)
    requires IsBitmatrix(B, |B|, cols) && i < |B|
  {
    && -1 <= from < |B| && (from == -1 || from in done)
    && diff == Weight(cols, B, from, i)
    && (from >= 0 ==> diff < Ones(B[i], cols))
    && diff <= Ones(B[i], cols)
    && forall f | f in done && f < |B| :: diff <= Weight(cols, B, f, i)
  }

  lemma ReachedStart(cols: nat, B: seq<seq<bool>>, i: nat)
    requires IsBitmatrix(B, |B|, cols) && i < |B|
    ensures Reached(cols, B, {}, Ones(B[i], cols), -1, i)
  {
  }

  lemma ReachedAfter(cols: nat, B: seq<seq<bool>>, done: set<nat>, diff: int, from: int, i: nat, row: nat, no: nat)
    requires IsBitmatrix(B, |B|, cols) && i < |B| && row < |B| && row !in done
    requires Reached(cols, B, done, diff, from, i) && no == Weight(cols, B, row, i)
    ensures diff <= cols
    ensures no < diff ==> Reached(cols, B, done + {row}, no, row, i)
    ensures no >= diff ==> Reached(cols, B, done + {row}, diff, from, i)
  {
  }

  method CountOnes(bitmatrix: array2<bool>, i: nat) returns (no: nat)
    requires i < bitmatrix.Length0
    ensures no == Ones(Rows(bitmatrix)[i], bitmatrix.Length1)
  {
    no := 0;
    for j := 0 to bitmatrix.Length1
      invariant no == Ones(Rows(bitmatrix)[i], j)
    {
      no := no + if bitmatrix[i, j] then 1 else 0;
    }
  }

  method CountDifferences(bitmatrix: array2<bool>, row: nat, i: nat) returns (no: nat)
    requires row < bitmatrix.Length0 && i < bitmatrix.Length0
    ensures no == 1 + Distance(Rows(bitmatrix)[row], Rows(bitmatrix)[i], bitmatrix.Length1)
  {
    no := 1;
    for j := 0 to bitmatrix.Length1
      invariant no == 1 + Distance(Rows(bitmatrix)[row], Rows(bitmatrix)[i], j)
    {
      no := no + if bitmatrix[row, j] != bitmatrix[i, j] then 1 else 0;
    }
  }

  // Among the first n rows on the list, todo[q] has the cheapest edge.
  ghost predicate Best(diff: seq<int>, todo: seq<nat>, n: nat, q: nat)
    requires n <= |todo| && forall s | 0 <= s < n :: todo[s] < |diff|
  {
    n > 0 ==> q < n && forall s | 0 <= s < n :: diff[todo[q]] <= diff[todo[s]]
  }

  lemma NoneBest(diff: seq<int>, todo: seq<nat>)
    ensures Best(diff[..], todo, 0, 0)
  {
  }

  lemma BestNext(diff: seq<int>, todo: seq<nat>, p: nat, q: nat, d: int)
    requires p < |todo| && (forall s | 0 <= s < |todo| :: todo[s] < |diff|) && Best(diff[..], todo, p, q)
    requires forall s, t | 0 <= s < t < |todo| :: todo[s] != todo[t]
    ensures p == 0 ==> Best(diff[todo[p] := d], todo, p + 1, p)
    ensures p > 0 ==> q < p && diff[todo[p] := d][todo[q]] == diff[todo[q]]
    ensures p > 0 ==> Best(diff[todo[p] := d], todo, p + 1, if d < diff[todo[q]] then p else q)
  {
  }

  // The links lo to hi - 1 hold what Reached says.
  ghost predicate AllReached(cols: nat, B: seq<seq<bool>>, done: set<nat>, todo: seq<nat>, lo: nat, hi: nat,
                             diff: seq<int>, from: seq<int>)
    requires IsBitmatrix(B, |B|, cols) && |diff| == |from| == |B|
    requires hi <= |todo| && forall s | 0 <= s < |todo| :: todo[s] < |B|
  {
    forall s | lo <= s < hi :: Reached(cols, B, done, diff[todo[s]], from[todo[s]], todo[s])
  }

  lemma NoneReached(cols: nat, B: seq<seq<bool>>, done: set<nat>, row: nat, todo: seq<nat>, diff: seq<int>,
                    from: seq<int>)
    requires IsBitmatrix(B, |B|, cols) && |diff| == |from| == |B| && forall s | 0 <= s < |todo| :: todo[s] < |B|
    requires forall s | 0 <= s < |todo| :: Reached(cols, B, done, diff[todo[s]], from[todo[s]], todo[s])
    ensures AllReached(cols, B, done + {row}, todo, 0, 0, diff, from)
    ensures AllReached(cols, B, done, todo, 0, |todo|, diff, from)
  {
    hide Reached;
  }

  lemma ReachedAt(cols: nat, B: seq<seq<bool>>, done: set<nat>, todo: seq<nat>, p: nat, diff: seq<int>, from: seq<int>)
    requires IsBitmatrix(B, |B|, cols) && |diff| == |from| == |B| && forall s | 0 <= s < |todo| :: todo[s] < |B|
    requires p < |todo| && AllReached(cols, B, done, todo, p, |todo|, diff, from)
    ensures Reached(cols, B, done, diff[todo[p]], from[todo[p]], todo[p])
  {
    hide Reached;
  }

  lemma ReachedNext(cols: nat, B: seq<seq<bool>>, done: set<nat>, row: nat, todo: seq<nat>, p: nat, diff: seq<int>,
                    from: seq<int>, d: int, f: int)
    requires IsBitmatrix(B, |B|, cols) && |diff| == |from| == |B| && forall s | 0 <= s < |todo| :: todo[s] < |B|
    requires p < |todo| && forall s, t | 0 <= s < t < |todo| :: todo[s] != todo[t]
    requires AllReached(cols, B, done + {row}, todo, 0, p, diff, from)
    requires AllReached(cols, B, done, todo, p, |todo|, diff, from)
    requires Reached(cols, B, done + {row}, d, f, todo[p])
    ensures AllReached(cols, B, done + {row}, todo, 0, p + 1, diff[todo[p] := d], from[todo[p] := f])
    ensures AllReached(cols, B, done, todo, p + 1, |todo|, diff[todo[p] := d], from[todo[p] := f])
  {
    hide Reached;
  }

  lemma ReachedEnd(cols: nat, B: seq<seq<bool>>, done: set<nat>, todo: seq<nat>, diff: seq<int>, from: seq<int>)
    requires IsBitmatrix(B, |B|, cols) && |diff| == |from| == |B| && forall s | 0 <= s < |todo| :: todo[s] < |B|
    requires AllReached(cols, B, done, todo, 0, |todo|, diff, from)
    ensures forall s | 0 <= s < |todo| :: Reached(cols, B, done, diff[todo[s]], from[todo[s]], todo[s])
  {
    hide Reached;
  }

  lemma LinkNext(flink: array<int>, blink: array<int>, top: int, todo: seq<nat>, p: nat)
    requires Linked(flink, blink, top, todo) && p < |todo|
    ensures todo[p] < flink.Length && flink[todo[p]] == if p + 1 < |todo| then todo[p + 1] else -1
  {
  }

  lemma BestIsLeast(diff: array<int>, todo: seq<nat>, q: nat)
    requires (forall s | 0 <= s < |todo| :: todo[s] < diff.Length) && Best(diff[..], todo, |todo|, q) && |todo| > 0
    ensures q < |todo| && forall s | 0 <= s < |todo| :: diff[..][todo[q]] <= diff[..][todo[s]]
  {
  }

  // The first pass: every row is on the list, to be built from scratch.
  method InitRows(bitmatrix: array2<bool>, diff: array<int>, from: array<int>, flink: array<int>, blink: array<int>)
    returns (bestrow: int, ghost todo: seq<nat>, ghost q: nat)
    requires 0 < bitmatrix.Length0 == diff.Length == from.Length == flink.Length == blink.Length
    requires diff != from && flink != blink && diff != flink && diff != blink && from != flink && from != blink
    modifies diff, from, flink, blink
    ensures todo == seq(diff.Length, i => i)
    ensures Linked(flink, blink, 0, todo)
    ensures forall i | 0 <= i < diff.Length :: Reached(bitmatrix.Length1, Rows(bitmatrix), {}, diff[i], from[i], i)
    ensures q < |todo| && bestrow == todo[q] && Best(diff[..], todo, |todo|, q)
  {
    hide Rows, Reached;
    var n := diff.Length;
    todo := seq(n, i => i);
    bestrow, q := 0, 0;
    var bestdiff := bitmatrix.Length1 + 1;
    for i := 0 to n
      invariant forall j | 0 <= j < i :: Reached(bitmatrix.Length1, Rows(bitmatrix), {}, diff[j], from[j], j)
      invariant forall j | 0 <= j < i :: flink[j] == j + 1 && blink[j] == j - 1
      invariant q < n && bestrow == q && Best(diff[..], todo, i, q)
      invariant bestdiff == if i == 0 then bitmatrix.Length1 + 1 else diff[q]
    {
      var no := CountOnes(bitmatrix, i);
      ReachedStart(bitmatrix.Length1, Rows(bitmatrix), i);
      diff[i] := no;
      from[i] := -1;
      flink[i] := i + 1;
      blink[i] := i - 1;
      if no < bestdiff {
        bestdiff := no;
        bestrow, q := i, i;
      }
    }
    flink[n - 1] := -1;
  }

  // Shorten the edge of row i when row is nearer than what it was linked to.
  method Shorten(bitmatrix: array2<bool>, diff: array<int>, from: array<int>, row: nat, i: nat, ghost done: set<nat>)
    requires bitmatrix.Length0 == diff.Length == from.Length && diff != from
    requires row < bitmatrix.Length0 && i < bitmatrix.Length0 && row !in done
    requires Reached(bitmatrix.Length1, Rows(bitmatrix), done, diff[i], from[i], i) && row != i
    modifies diff, from
    ensures diff[..] == old(diff[..])[i := diff[i]] && from[..] == old(from[..])[i := from[i]]
    ensures Reached(bitmatrix.Length1, Rows(bitmatrix), done + {row}, diff[i], from[i], i)
    ensures diff[i] <= bitmatrix.Length1
  {
    hide Reached, Rows;
    var no := CountDifferences(bitmatrix, row, i);
    ReachedAfter(bitmatrix.Length1, Rows(bitmatrix), done, diff[i], from[i], i, row, no);
    if no < diff[i] {
      from[i] := row;
      diff[i] := no;
    }
  }

  // After row is done: shorten the edges of the rows on the list and find the cheapest.
  method Relax(bitmatrix: array2<bool>, diff: array<int>, from: array<int>, flink: array<int>, blink: array<int>,
               top: int, row: nat, oldbest: int, ghost todo: seq<nat>, ghost done: set<nat>)
    returns (bestrow: int, ghost q: nat)
    requires bitmatrix.Length0 == diff.Length == from.Length == flink.Length
    requires diff != from && diff != flink && diff != blink && from != flink && from != blink
    requires Linked(flink, blink, top, todo) && row < bitmatrix.Length0 && row !in done && row !in todo
    requires forall s | 0 <= s < |todo| ::
      Reached(bitmatrix.Length1, Rows(bitmatrix), done, diff[todo[s]], from[todo[s]], todo[s])
    modifies diff, from
    ensures forall s | 0 <= s < |todo| ::
      Reached(bitmatrix.Length1, Rows(bitmatrix), done + {row}, diff[todo[s]], from[todo[s]], todo[s])
    ensures Best(diff[..], todo, |todo|, q) && (|todo| > 0 ==> bestrow == todo[q])
  {
    hide Reached, Rows, Linked, AllReached, Best;
    ghost var cols, B := bitmatrix.Length1, Rows(bitmatrix);
    LinkedFacts(flink, blink, top, todo);
    NoneReached(cols, B, done, row, todo, diff[..], from[..]);
    NoneBest(diff[..], todo);
    bestrow, q := oldbest, 0;
    var bestdiff := bitmatrix.Length1 + 1;
    var i := top;
    ghost var p := 0;
    while i != -1
      invariant 0 <= p <= |todo| && i == if p < |todo| then todo[p] else -1
      invariant Linked(flink, blink, top, todo)
      invariant AllReached(cols, B, done + {row}, todo, 0, p, diff[..], from[..])
      invariant AllReached(cols, B, done, todo, p, |todo|, diff[..], from[..])
      invariant Best(diff[..], todo, p, q) && (p > 0 ==> q < p && bestrow == todo[q])
      invariant bestdiff == if p == 0 then cols + 1 else diff[todo[q]]
      decreases |todo| - p
    {
      LinkNext(flink, blink, top, todo, p);
      ReachedAt(cols, B, done, todo, p, diff[..], from[..]);
      ghost var diff', from' := diff[..], from[..];
      Shorten(bitmatrix, diff, from, row, i, done);
      ReachedNext(cols, B, done, row, todo, p, diff', from', diff[i], from[i]);
      BestNext(diff', todo, p, q, diff[i]);
      if diff[i] < bestdiff {
        bestdiff := diff[i];
        bestrow, q := i, p;
      }
      i := flink[i];
      p := p + 1;
    }
    ReachedEnd(cols, B, done + {row}, todo, diff[..], from[..]);
  }

  ghost function ToSet(todo: seq<nat>): set<nat> { set i | i in todo }

  lemma ToSetWithout(todo: seq<nat>, p: nat)
    requires p < |todo| && forall s, t | 0 <= s < t < |todo| :: todo[s] != todo[t]
    ensures ToSet(todo[..p] + todo[p + 1..]) == ToSet(todo) - {todo[p]}
    ensures forall i | i in todo[..p] + todo[p + 1..] :: i in todo && i != todo[p]
  {
    var rest := todo[..p] + todo[p + 1..];
    forall i | i in todo && i != todo[p]
      ensures i in rest
    {
      var s :| 0 <= s < |todo| && todo[s] == i;
      assert rest[if s < p then s else s - 1] == i;
    }
  }

  // The order built so far is sound, accounts for every operation, and loses to no plan.
  ghost predicate Grown(k: nat, w: nat, cols: nat, B: seq<seq<bool>>, order: seq<Choice>, todo: seq<nat>)
    requires 0 < w && IsBitmatrix(B, |B|, cols)
  {
    && Orderly(B, order)
    && ToSet(todo) == AllRows(|B|) - Scheduled(order)
    && NoBetterPlan(cols, B, |Emit(k, w, cols, B, order)|, ToSet(todo))
  }

  lemma EmitChoiceCost(k: nat, w: nat, cols: nat, B: seq<seq<bool>>, c: Choice)
    requires 0 < w && IsBitmatrix(B, |B|, cols) && c.row < |B| && -1 <= c.from < |B|
    ensures |EmitChoice(k, w, B, c)| == Weight(cols, B, c.from, c.row)
  {
    if c.from >= 0 {
      DistanceSymmetric(B[c.row], B[c.from], cols);
    }
  }

  // A row that is cheaper to derive than to build is not zero, and neither is its source.
  lemma SourceNotZero(cols: nat, row: seq<bool>, base: seq<bool>, n: nat)
    requires n <= |row| == |base|
    ensures Ones(base, n) == 0 ==> Distance(base, row, n) == Ones(row, n)
  {
  }

  lemma LinkedFacts(flink: array<int>, blink: array<int>, top: int, todo: seq<nat>)
    requires Linked(flink, blink, top, todo)
    ensures top == if |todo| == 0 then -1 else todo[0]
    ensures flink.Length == blink.Length && forall s | 0 <= s < |todo| :: todo[s] < flink.Length
    ensures forall s, t | 0 <= s < t < |todo| :: todo[s] != todo[t]
  {
  }

  // The choice that the cheapest row was given can come next.
  lemma NewChoice(k: nat, w: nat, cols: nat, B: seq<seq<bool>>, order: seq<Choice>, c: Choice, d: int, todo: seq<nat>)
    requires 0 < w && IsBitmatrix(B, |B|, cols) && Grown(k, w, cols, B, order, todo) && c.row < |B|
    requires c.row in ToSet(todo)
    requires Reached(cols, B, Scheduled(order), d, c.from, c.row)
    ensures -1 <= c.from < |B| && c.row !in Scheduled(order) && Orderly(B, order + [c]) && Choices(B, order)
    ensures |EmitChoice(k, w, B, c)| == d
    ensures Emit(k, w, cols, B, order + [c]) == Emit(k, w, cols, B, order) + EmitChoice(k, w, B, c)
  {
    hide NoBetterPlan, EmitChoice;
    if c.from >= 0 {
      SourceNotZero(cols, B[c.row], B[c.from], cols);
    }
    OrderlyAppend(B, order, c);
    EmitChoiceCost(k, w, cols, B, c);
    assert (order + [c])[..|order|] == order;
  }

  // No edge from outside the list into it is cheaper.
  lemma CheapestCrossing(cols: nat, B: seq<seq<bool>>, done: set<nat>, todo: seq<nat>, q: nat, diff: seq<int>,
                         from: seq<int>)
    requires IsBitmatrix(B, |B|, cols) && |diff| == |from| == |B| && q < |todo| && ToSet(todo) == AllRows(|B|) - done
    requires forall s | 0 <= s < |todo| :: todo[s] < |B|
    requires forall s | 0 <= s < |todo| :: Reached(cols, B, done, diff[todo[s]], from[todo[s]], todo[s])
    requires forall s | 0 <= s < |todo| :: diff[todo[q]] <= diff[todo[s]]
    ensures diff[todo[q]] >= 0 && Crossing(cols, B, ToSet(todo), diff[todo[q]])
  {
    hide Ones, Distance;
    var open, d := ToSet(todo), diff[todo[q]];
    forall f: int, u: nat | -1 <= f < |B| && u < |B| && f !in open && u in open
      ensures d <= Weight(cols, B, f, u)
    {
      assert f == -1 || f in done;
      var s :| 0 <= s < |todo| && todo[s] == u;
      assert Reached(cols, B, done, diff[todo[s]], from[todo[s]], todo[s]);
    }
  }

  lemma GrowStep(k: nat, w: nat, cols: nat, B: seq<seq<bool>>, order: seq<Choice>, todo: seq<nat>, q: nat,
                 diff: seq<int>, from: seq<int>)
    requires 0 < w && IsBitmatrix(B, |B|, cols) && |diff| == |from| == |B|
    requires Grown(k, w, cols, B, order, todo) && q < |todo|
    requires forall s | 0 <= s < |todo| :: todo[s] < |B|
    requires forall s, t | 0 <= s < t < |todo| :: todo[s] != todo[t]
    requires forall s | 0 <= s < |todo| :: Reached(cols, B, Scheduled(order), diff[todo[s]], from[todo[s]], todo[s])
    requires forall s | 0 <= s < |todo| :: diff[todo[q]] <= diff[todo[s]]
    ensures var row := todo[q]; var c := Choice(row, from[row]);
      && row < |B| && -1 <= from[row] < |B| && row !in Scheduled(order)
      && |EmitChoice(k, w, B, c)| == diff[row]
      && Grown(k, w, cols, B, order + [c], todo[..q] + todo[q + 1..])
      && Emit(k, w, cols, B, order + [c]) == Emit(k, w, cols, B, order) + EmitChoice(k, w, B, c)
      && |Emit(k, w, cols, B, order + [c])| <= TotalOnes(cols, B, |B|)
      && Scheduled(order + [c]) == Scheduled(order) + {row}
  {
    hide Weight, EmitChoice, NoBetterPlan, TotalOnes, Orderly;
    var row := todo[q];
    assert row in todo && row in ToSet(todo);
    var c := Choice(row, from[row]);
    NewChoice(k, w, cols, B, order, c, diff[row], todo);
    ScheduledAppend(order, c);
    ToSetWithout(todo, q);
    CheapestCrossing(cols, B, Scheduled(order), todo, q, diff, from);
    PlansStep(cols, B, |Emit(k, w, cols, B, order)|, ToSet(todo), row, diff[row]);
    SpentBound(cols, B, |Emit(k, w, cols, B, order)| + diff[row], ToSet(todo) - {row});
  }

  method EmitRow(k: nat, w: nat, bitmatrix: array2<bool>, row: nat, from: int, operations: array<Op>, op: nat)
    returns (op': nat)
    requires 0 < w && row < bitmatrix.Length0 && -1 <= from < bitmatrix.Length0
    requires op + |EmitChoice(k, w, Rows(bitmatrix), Choice(row, from))| <= operations.Length
    modifies operations
    ensures op' <= operations.Length
    ensures operations[..op'] == old(operations[..op]) + EmitChoice(k, w, Rows(bitmatrix), Choice(row, from))
  {
    if from == -1 {
      op' := EmitFromScratch(k, w, bitmatrix, row, operations, op);
    } else {
      op' := EmitFromRow(k, w, bitmatrix, row, from, operations, op);
    }
  }

  // The state of the loop: operations[..op] emits order, and the arrays describe the rows in todo, of
  // which todo[q] is the cheapest to do next.
  ghost predicate Growing(k: nat, w: nat, bitmatrix: array2<bool>, operations: array<Op>, op: nat,
                          diff: array<int>, from: array<int>, flink: array<int>, blink: array<int>,
                          top: int, bestrow: int, order: seq<Choice>, todo: seq<nat>, q: nat)
    reads bitmatrix, operations, diff, from, flink, blink
  {
    && 0 < w && diff.Length == from.Length == flink.Length == bitmatrix.Length0
    && diff != from && diff != flink && diff != blink && from != flink && from != blink && flink != blink
    && Linked(flink, blink, top, todo)
    && Grown(k, w, bitmatrix.Length1, Rows(bitmatrix), order, todo)
    && TotalOnes(bitmatrix.Length1, Rows(bitmatrix), bitmatrix.Length0) < operations.Length
    && op < operations.Length
    && operations[..op] == Emit(k, w, bitmatrix.Length1, Rows(bitmatrix), order)
    && (forall s | 0 <= s < |todo| ::
          Reached(bitmatrix.Length1, Rows(bitmatrix), Scheduled(order), diff[todo[s]], from[todo[s]], todo[s]))
    && Best(diff[..], todo, |todo|, q)
    && (|todo| > 0 ==> q < |todo| && bestrow == todo[q])
  }

  method SmartStep(k: nat, w: nat, bitmatrix: array2<bool>, operations: array<Op>, op: nat,
                   diff: array<int>, from: array<int>, flink: array<int>, blink: array<int>,
                   top: int, bestrow: int, ghost order: seq<Choice>, ghost todo: seq<nat>, ghost q: nat)
    returns (op': nat, top': int, bestrow': int, ghost order': seq<Choice>, ghost todo': seq<nat>, ghost q': nat)
    requires Growing(k, w, bitmatrix, operations, op, diff, from, flink, blink, top, bestrow, order, todo, q)
    requires top != -1
    modifies operations, diff, from, flink, blink
    ensures Growing(k, w, bitmatrix, operations, op', diff, from, flink, blink, top', bestrow', order', todo', q')
    ensures |todo'| < |todo|
  {
    hide Rows, Emit, EmitChoice, Reached, Grown, Scheduled, Weight, Linked;
    ghost var cols, B := bitmatrix.Length1, Rows(bitmatrix);
    LinkedFacts(flink, blink, top, todo);
    BestIsLeast(diff, todo, q);
    var row := bestrow;
    ghost var c := Choice(row, from[row]);
    GrowStep(k, w, cols, B, order, todo, q, diff[..], from[..]);
    ToSetWithout(todo, q);
    todo' := todo[..q] + todo[q + 1..];
    order' := order + [c];
    top' := Unlink(flink, blink, top, row, todo, q);
    op' := EmitRow(k, w, bitmatrix, row, from[row], operations, op);
    bestrow', q' := Relax(bitmatrix, diff, from, flink, blink, top', row, bestrow, todo', Scheduled(order));
  }

  /** Grow a tree of derivations, cheapest row first. The schedule computes the bitmatrix and no acyclic
      plan has fewer operations. */
  method SmartBitmatrixToSchedule(k: nat, m: nat, w: nat, bitmatrix: array2<bool>)
    returns (operations: array<Op>, ghost ops: seq<Op>)
    requires 0 < w && 0 < bitmatrix.Length0 && Shape(k, m, w, bitmatrix.Length1, bitmatrix.Length0)
    ensures fresh(operations) && operations.Length == Capacity(k, m, w)
    ensures IsSchedule(operations, ops) && Computes(k + m, w, bitmatrix.Length1, Rows(bitmatrix), ops)
    ensures forall par | IsPlan(Rows(bitmatrix), par) && Acyclic(par) ::
      |ops| <= PlanCost(bitmatrix.Length1, Rows(bitmatrix), par)
  {
    hide Shape, Capacity, Rows, Emit, EmitChoice, Computes, Reached, Grown, Linked;
    ghost var cols, rows, B := bitmatrix.Length1, bitmatrix.Length0, Rows(bitmatrix);
    CapacityFits(k, m, w, cols, rows, B);
    assert TotalOnes(cols, B, rows) < Capacity(k, m, w);
    operations := new Op[Capacity(k, m, w)](i => END_MARK);
    var op: nat := 0;
    var diff, from := new int[bitmatrix.Length0], new int[bitmatrix.Length0];
    var flink, blink := new int[bitmatrix.Length0], new int[bitmatrix.Length0];
    var top, bestrow := 0, 0;
    ghost var order: seq<Choice> := [];
    ghost var todo: seq<nat>;
    ghost var q: nat;
    bestrow, todo, q := InitRows(bitmatrix, diff, from, flink, blink);
    GrowStart(k, w, cols, B, todo);
    while top != -1
      invariant fresh(operations) && fresh(diff) && fresh(from) && fresh(flink) && fresh(blink)
      invariant Growing(k, w, bitmatrix, operations, op, diff, from, flink, blink, top, bestrow, order, todo, q)
      decreases |todo|
    {
      op, top, bestrow, order, todo, q :=
        SmartStep(k, w, bitmatrix, operations, op, diff, from, flink, blink, top, bestrow, order, todo, q);
    }
    ops := operations[..op];
    ListEmpty(flink, blink, top, todo);
    GrowEnd(k, w, cols, B, order, todo);
    OrderComputes(k, m, w, cols, rows, B, order);
    CloseSchedule(operations, op, ops);
  }

  lemma ListEmpty(flink: array<int>, blink: array<int>, top: int, todo: seq<nat>)
    requires Linked(flink, blink, top, todo) && top == -1
    ensures todo == []
  {
  }

  lemma GrowStart(k: nat, w: nat, cols: nat, B: seq<seq<bool>>, todo: seq<nat>)
    requires 0 < w && IsBitmatrix(B, |B|, cols) && todo == seq(|B|, i => i)
    ensures Grown(k, w, cols, B, [], todo) && Scheduled([]) == {} && Choices(B, [])
    ensures Emit(k, w, cols, B, []) == []
  {
    PlansStart(cols, B);
    forall i: nat
      ensures i in ToSet(todo) <==> i in AllRows(|B|)
    {
      if i < |B| {
        assert todo[i] == i;
      }
    }
    assert ToSet(todo) == AllRows(|B|);
  }

  lemma GrowEnd(k: nat, w: nat, cols: nat, B: seq<seq<bool>>, order: seq<Choice>, todo: seq<nat>)
    requires 0 < w && IsBitmatrix(B, |B|, cols) && Grown(k, w, cols, B, order, todo) && todo == []
    ensures Orderly(B, order) && Scheduled(order) == AllRows(|B|)
    ensures forall par | IsPlan(B, par) && Acyclic(par) :: |Emit(k, w, cols, B, order)| <= PlanCost(cols, B, par)
  {
    assert ToSet(todo) == {};
    assert Scheduled(order) <= AllRows(|B|);
    forall par | IsPlan(B, par) && Acyclic(par)
      ensures |Emit(k, w, cols, B, order)| <= PlanCost(cols, B, par)
    {
      PlansEnd(cols, B, |Emit(k, w, cols, B, order)|, par);
    }
  }
}

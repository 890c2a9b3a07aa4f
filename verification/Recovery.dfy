/** What a decoding schedule does to the buffers, and exactly when it restores them. */
module Recovery {
  import opened Arithmetic
  import opened LinearAlgebra
  import opened Fields
  import opened Schedules
  import opened Buffers
  import opened Encoders
  import opened Erasures
  import opened DecodingTheory
  import opened ScheduledDecoding
  import opened DecodingLimits
  import opened Codewords

  ghost function Pick(S: seq<seq<bool>>, ids: seq<nat>): (T: seq<seq<bool>>)
    requires forall x | 0 <= x < |ids| :: ids[x] < |S|
    ensures |T| == |ids|
  {
    seq(|ids|, x requires 0 <= x < |ids| => S[ids[x]])
  }

  lemma PickSized(S: seq<seq<bool>>, ids: seq<nat>, devs: nat, size: nat)
    requires Sized(S, devs, size) && forall x | 0 <= x < |ids| :: ids[x] < devs
    ensures Sized(Pick(S, ids), |ids|, size)
  {
  }

  lemma PickAgrees(S: seq<seq<bool>>, S': seq<seq<bool>>, ids: seq<nat>, k: nat)
    requires |S| == |S'| && k <= |ids| && (forall x | 0 <= x < |ids| :: ids[x] < |S|)
    requires forall x | 0 <= x < k :: S[ids[x]] == S'[ids[x]]
    ensures forall x | 0 <= x < k :: Pick(S, ids)[x] == Pick(S', ids)[x]
  {
  }

  // Looking at picked devices is picking from the view.
  lemma PickView(k: nat, m: nat, w: nat, ps: nat, stripes: nat, cols: nat, rows: nat, n: nat, S: seq<seq<bool>>,
                 ids: seq<nat>, t: nat, b: nat)
    requires 0 < w && Shape(k, m, w, cols, rows) && Sized(S, k + m, Size(w, ps, stripes)) && t < stripes && b < ps
    requires (forall x | 0 <= x < |ids| :: ids[x] < k + m) && n == |ids| * w
    ensures View(w, ps, n, Pick(S, ids), t, b) == Arranged(w, n, ids, View(w, ps, cols + rows, S, t, b))
  {
    hide Shape, View, At, Size;
    AllPackets(k, m, w, cols, rows);
    var C, T := View(w, ps, cols + rows, S, t, b), Pick(S, ids);
    forall q | 0 <= q < n
      ensures View(w, ps, n, T, t, b)[q] == Arranged(w, n, ids, C)[q]
    {
      var x, y := Dividing(w, |ids|, n, q);
      ViewAt(w, ps, n, stripes, T, t, b, x, y);
      ViewAt(w, ps, cols + rows, stripes, S, t, b, ids[x], y);
    }
  }

  // Only the devices read matter: those with equal contents give equal packets.
  lemma SameReads(k: nat, x: nat, w: nat, ps: nat, stripes: nat, cols: nat, rows: nat, T: seq<seq<bool>>,
                  T': seq<seq<bool>>, t: nat, b: nat)
    requires 0 < w && Shape(k, x, w, cols, rows) && k <= |T| == |T'| && forall d | 0 <= d < k :: T[d] == T'[d]
    ensures View(w, ps, cols + rows, T, t, b)[..cols] == View(w, ps, cols + rows, T', t, b)[..cols]
  {
    hide Shape, At, View;
    var V, V' := View(w, ps, cols + rows, T, t, b), View(w, ps, cols + rows, T', t, b);
    forall q | 0 <= q < cols
      ensures V[q] == V'[q]
    {
      DataDevice(k, x, w, cols, rows, q);
      SameBit(w, ps, cols + rows, T, T', t, b, q, k);
    }
  }

  lemma SameBit(w: nat, ps: nat, n: nat, T: seq<seq<bool>>, T': seq<seq<bool>>, t: nat, b: nat, q: nat, k: nat)
    requires 0 < w && q < n && q / w < k <= |T| == |T'| && forall d | 0 <= d < k :: T[d] == T'[d]
    ensures View(w, ps, n, T, t, b)[q] == View(w, ps, n, T', t, b)[q]
  {
    hide At;
  }

  // ---- The packets that are never written.

  ghost predicate ClearAt(w: nat, ps: nat, cols: nat, B: seq<seq<bool>>, now: seq<seq<bool>>, d: nat, y: nat, t: nat,
                          b: nat)
    requires IsBitmatrix(B, |B|, cols)
  {
    Ones(Generator(cols, B, Pos(w, d, y)), cols) == 0 ==>
      d < |now| && At(w, ps, t, y, b) < |now[d]| && !now[d][At(w, ps, t, y, b)]
  }

  /** The packets of lost coding devices whose rows have no ones are zero already. */
  ghost predicate ClearBuffers(w: nat, ps: nat, stripes: nat, k: nat, cols: nat, B: seq<seq<bool>>, e: seq<bool>,
                               now: seq<seq<bool>>)
    requires IsBitmatrix(B, |B|, cols)
  {
    forall d, y, t, b | k <= d < |e| && e[d] && 0 <= y < w && 0 <= t < stripes &&
        0 <= b < ps :: ClearAt(w, ps, cols, B, now, d, y, t, b)
  }

  lemma NonzeroIsClear(w: nat, ps: nat, stripes: nat, k: nat, cols: nat, B: seq<seq<bool>>, e: seq<bool>,
                       now: seq<seq<bool>>)
    requires IsBitmatrix(B, |B|, cols) && NonzeroRows(w, k, cols, B, e)
    ensures ClearBuffers(w, ps, stripes, k, cols, B, e, now)
  {
  }

  // A packet that is always zero belongs to a coding device.
  lemma BlankCoding(k: nat, m: nat, w: nat, cols: nat, B: seq<seq<bool>>, d: nat, y: nat)
    requires 0 < w && Shape(k, m, w, cols, |B|) && IsBitmatrix(B, |B|, cols) && d < k + m && y < w
    requires Ones(Generator(cols, B, Pos(w, d, y)), cols) == 0
    ensures k <= d
  {
    hide Shape, Generator, Pos, Ones;
    GeneratorRow(k, m, w, cols, B, d, y, 0);
    if d < k {
      UnitHasOne(cols, Pos(w, d, y), cols);
    }
  }

  lemma TargetLost(k: nat, m: nat, w: nat, e: seq<bool>, r: nat, d: nat, y: nat)
    requires 0 < w && |e| == k + m && Recoverable(e, k) && RowIsFor(w, k, RowIds(e, k), r, d, y)
    ensures d < |e| && e[d] && y < w
  {
    hide RowIds, StandIn;
    LostCoding(k, m, e, |Where(e, 0, k, true)|, |Where(e, k, k + m, true)|, RowIds(e, k), k + r / w);
  }

  // What the target of row r holds in the buffers.
  lemma TargetBit(k: nat, m: nat, w: nat, ps: nat, stripes: nat, cols: nat, rows: nat, now: seq<seq<bool>>,
                  ids: seq<nat>, t: nat, b: nat, r: nat, d: nat, y: nat)
    requires 0 < w && k <= |ids| && Shape(k, |ids| - k, w, cols, rows) && Sized(now, k + m, Size(w, ps, stripes))
    requires t < stripes && b < ps && (forall x | 0 <= x < |ids| :: ids[x] < k + m) && r < rows
    requires RowIsFor(w, k, ids, r, d, y)
    ensures d < k + m && At(w, ps, t, y, b) < Size(w, ps, stripes)
    ensures View(w, ps, cols + rows, Pick(now, ids), t, b)[cols + r] == now[d][At(w, ps, t, y, b)]
  {
    hide Shape, View, At, Size;
    AllPackets(k, |ids| - k, w, cols, rows);
    TargetColumn(k, |ids| - k, w, cols, rows, r);
    ViewAt(w, ps, cols + rows, stripes, Pick(now, ids), t, b, k + r / w, r % w);
  }

  lemma TargetColumn(k: nat, x: nat, w: nat, cols: nat, rows: nat, r: nat)
    requires 0 < w && Shape(k, x, w, cols, rows)
    ensures (k + r / w) * w + r % w == cols + r
  {
    Position(w, k, r);
  }

  ghost predicate ClearView(w: nat, ps: nat, n: nat, k: nat, cols: nat, B: seq<seq<bool>>, ids: seq<nat>,
                            now: seq<seq<bool>>, t: nat, b: nat)
    requires 0 < w && IsBitmatrix(B, |B|, cols) && forall x | 0 <= x < |ids| :: ids[x] < |now|
  {
    BlanksClear(w, k, cols, B, ids, View(w, ps, n, Pick(now, ids), t, b))
  }

  lemma ClearBit(k: nat, m: nat, w: nat, ps: nat, stripes: nat, cols: nat, B: seq<seq<bool>>, e: seq<bool>, rows: nat,
                 n: nat, now: seq<seq<bool>>, t: nat, b: nat, r: nat)
    requires 0 < w && Shape(k, m, w, cols, |B|) && IsBitmatrix(B, |B|, cols) && |e| == k + m && Recoverable(e, k)
    requires n == cols + rows && Shape(k, |RowIds(e, k)| - k, w, cols, rows) && Sized(now, k + m, Size(w, ps, stripes))
    requires ClearBuffers(w, ps, stripes, k, cols, B, e, now) && t < stripes && b < ps && r < rows
    requires Blank(w, k, cols, B, RowIds(e, k), r)
    ensures !View(w, ps, n, Pick(now, RowIds(e, k)), t, b)[cols + r]
  {
    hide Shape, RowIds, Recoverable, Size, At, View, Generator, Blank, Pick, Pos;
    var ids := RowIds(e, k);
    var d, y := BlankPacket(w, k, cols, B, ids, r);
    TargetLost(k, m, w, e, r, d, y);
    TargetBit(k, m, w, ps, stripes, cols, rows, now, ids, t, b, r, d, y);
    BlankCoding(k, m, w, cols, B, d, y);
    assert ClearAt(w, ps, cols, B, now, d, y, t, b);
  }

  // A packet that is not clear is a bit of a view that is not.
  lemma NotClear(k: nat, m: nat, w: nat, ps: nat, stripes: nat, cols: nat, B: seq<seq<bool>>, e: seq<bool>, rows: nat,
                 n: nat, now: seq<seq<bool>>, d: nat, y: nat, t: nat, b: nat)
    requires 0 < w && Shape(k, m, w, cols, |B|) && IsBitmatrix(B, |B|, cols) && |e| == k + m && Recoverable(e, k)
    requires n == cols + rows && Shape(k, |RowIds(e, k)| - k, w, cols, rows) && Sized(now, k + m, Size(w, ps, stripes))
    requires d < k + m && e[d] && y < w && t < stripes && b < ps && !ClearAt(w, ps, cols, B, now, d, y, t, b)
    ensures !ClearView(w, ps, n, k, cols, B, RowIds(e, k), now, t, b)
  {
    hide Shape, RowIds, Recoverable, Size, At, View, Generator, Blank, Pick, Pos;
    var ids := RowIds(e, k);
    var r := LostRow(k, w, cols, B, e, rows, d, y);
    TargetBit(k, m, w, ps, stripes, cols, rows, now, ids, t, b, r, d, y);
    assert View(w, ps, n, Pick(now, ids), t, b)[cols + r];
  }

  /** The buffers are clear when at every stripe and bit the packets to be decoded are. */
  lemma ClearViews(k: nat, m: nat, w: nat, ps: nat, stripes: nat, cols: nat, B: seq<seq<bool>>, e: seq<bool>, rows: nat,
                   n: nat, now: seq<seq<bool>>)
    requires 0 < w && Shape(k, m, w, cols, |B|) && IsBitmatrix(B, |B|, cols) && |e| == k + m && Recoverable(e, k)
    requires n == cols + rows && Shape(k, |RowIds(e, k)| - k, w, cols, rows) && Sized(now, k + m, Size(w, ps, stripes))
    ensures ClearBuffers(w, ps, stripes, k, cols, B, e, now) <==>
      forall t, b | 0 <= t < stripes && 0 <= b < ps ::
        ClearView(w, ps, n, k, cols, B, RowIds(e, k), now, t, b)
  {
    hide Shape, RowIds, Recoverable, Size, At, View, Generator, Blank, Pick, ClearAt;
    var ids := RowIds(e, k);
    if ClearBuffers(w, ps, stripes, k, cols, B, e, now) {
      forall t, b, r | 0 <= t < stripes && 0 <= b < ps && 0 <= r < rows && Blank(w, k, cols, B, ids, r)
        ensures !View(w, ps, n, Pick(now, ids), t, b)[cols + r]
      {
        ClearBit(k, m, w, ps, stripes, cols, B, e, rows, n, now, t, b, r);
      }
    } else {
      var d, y, t, b :| k <= d < |e| && e[d] && 0 <= y < w && 0 <= t < stripes && 0 <= b < ps &&
          !ClearAt(w, ps, cols, B, now, d, y, t, b);
      NotClear(k, m, w, ps, stripes, cols, B, e, rows, n, now, d, y, t, b);
    }
  }

  lemma BlankPacket(w: nat, k: nat, cols: nat, B: seq<seq<bool>>, ids: seq<nat>, r: nat) returns (d: nat, y: nat)
    requires 0 < w && IsBitmatrix(B, |B|, cols) && Blank(w, k, cols, B, ids, r)
    ensures RowIsFor(w, k, ids, r, d, y) && Ones(Generator(cols, B, Pos(w, d, y)), cols) == 0
  {
    hide Ones, Generator, Pos;
    d, y := ids[k + r / w], r % w;
  }

  lemma LostRow(k: nat, w: nat, cols: nat, B: seq<seq<bool>>, e: seq<bool>, rows: nat, d: nat, y: nat) returns (r: nat)
    requires 0 < w && IsBitmatrix(B, |B|, cols) && Recoverable(e, k) && Shape(k, |RowIds(e, k)| - k, w, cols, rows)
    requires d < |e| && e[d] && y < w && Ones(Generator(cols, B, Pos(w, d, y)), cols) == 0
    ensures r < rows && RowIsFor(w, k, RowIds(e, k), r, d, y) && Blank(w, k, cols, B, RowIds(e, k), r)
  {
    hide RowIds, StandIn, Where, Recoverable, Shape, Pos, Target;
    var ids := RowIds(e, k);
    RowIdsDistinct(e, k);
    assert d in ids[k..];
    var p :| k <= p < |ids| && ids[p] == d;
    r := RowFor(w, k, cols, rows, ids, p, y);
  }

  // ---- What the pointers end up with.

  // S is a codeword that agrees with what the buffers hold on every device that is read.
  ghost predicate Candidate(k: nat, m: nat, w: nat, ps: nat, stripes: nat, cols: nat, B: seq<seq<bool>>, e: seq<bool>,
                            S: seq<seq<bool>>, now: seq<seq<bool>>)
    requires 0 < w && IsBitmatrix(B, |B|, cols)
  {
    && |e| == k + m && Recoverable(e, k)
    && Sized(S, k + m, Size(w, ps, stripes)) && Sized(now, k + m, Size(w, ps, stripes))
    && CodewordBuffers(w, ps, stripes, cols, B, S)
    && forall x | 0 <= x < k :: now[RowIds(e, k)[x]] == S[RowIds(e, k)[x]]
  }

  // What the schedule for the lost devices e needs.
  ghost predicate Decoding(k: nat, m: nat, w: nat, cols: nat, B: seq<seq<bool>>, e: seq<bool>, R: seq<seq<bool>>,
                           ops: seq<Op>)
  {
    0 < w && Shape(k, m, w, cols, |B|) && IsBitmatrix(B, |B|, cols) && DecodingSchedule(k, m, w, cols, B, e, R, ops)
  }

  // What the decoder reads at one stripe and bit, and what it should end up with.
  lemma ReadsAt(k: nat, m: nat, w: nat, ps: nat, stripes: nat, cols: nat, B: seq<seq<bool>>, ids: seq<nat>, rows: nat,
                n: nat, S: seq<seq<bool>>, now: seq<seq<bool>>, t: nat, b: nat)
    requires 0 < w && Shape(k, m, w, cols, |B|) && t < stripes && b < ps && n == cols + rows
    requires Sized(S, k + m, Size(w, ps, stripes)) && Sized(now, k + m, Size(w, ps, stripes))
    requires k <= |ids| && (forall x | 0 <= x < |ids| :: ids[x] < k + m) && Shape(k, |ids| - k, w, cols, rows)
    requires forall x | 0 <= x < k :: now[ids[x]] == S[ids[x]]
    ensures View(w, ps, n, Pick(S, ids), t, b) == Arranged(w, n, ids, View(w, ps, cols + |B|, S, t, b))
    ensures View(w, ps, n, Pick(now, ids), t, b)[..cols] ==
      Arranged(w, n, ids, View(w, ps, cols + |B|, S, t, b))[..cols]
  {
    hide Shape, View, Size, Arranged, Pick;
    AllPackets(k, |ids| - k, w, cols, rows);
    PickAgrees(now, S, ids, k);
    PickView(k, m, w, ps, stripes, cols, |B|, n, S, ids, t, b);
    SameReads(k, |ids| - k, w, ps, stripes, cols, rows, Pick(now, ids), Pick(S, ids), t, b);
  }

  // The library's matrix for these pointers, when the survivors determine the data.
  ghost predicate Restoring(k: nat, m: nat, w: nat, cols: nat, B: seq<seq<bool>>, ids: seq<nat>, R: seq<seq<bool>>)
  {
    && 0 < w && Shape(k, m, w, cols, |B|) && IsBitmatrix(B, |B|, cols)
    && k <= |ids| && (forall x | 0 <= x < |ids| :: ids[x] < k + m)
    && IsBitmatrix(R, |R|, cols) && Shape(k, |ids| - k, w, cols, |R|)
    && Nonsingular(F2, SurvivorMatrix(w, cols, B, ids), cols)
    && forall r | 0 <= r < |R| :: DecodesRow(w, k, cols, B, ids, R, r)
  }

  lemma ExactAt(k: nat, m: nat, w: nat, ps: nat, cols: nat, B: seq<seq<bool>>, ids: seq<nat>, R: seq<seq<bool>>, n: nat,
                S: seq<seq<bool>>, now: seq<seq<bool>>, t: nat, b: nat)
    requires Restoring(k, m, w, cols, B, ids, R) && |S| == |now| == k + m && n == cols + |R|
    requires CodewordAt(w, ps, cols, B, S, t, b)
    requires View(w, ps, n, Pick(S, ids), t, b) == Arranged(w, n, ids, View(w, ps, cols + |B|, S, t, b))
    requires View(w, ps, n, Pick(now, ids), t, b)[..cols] ==
      Arranged(w, n, ids, View(w, ps, cols + |B|, S, t, b))[..cols]
    ensures Encoded(cols, R, View(w, ps, n, Pick(now, ids), t, b)) == View(w, ps, n, Pick(S, ids), t, b) <==>
      ClearView(w, ps, n, k, cols, B, ids, now, t, b)
  {
    hide View, Encoded, DecodesRow, Arranged, Codeword, BlanksClear, Nonsingular, SurvivorMatrix, Pick, Shape;
    EncodedExact(k, m, w, cols, B, ids, R, View(w, ps, cols + |B|, S, t, b), View(w, ps, n, Pick(now, ids), t, b));
  }

  lemma DecodingFacts(k: nat, m: nat, w: nat, cols: nat, B: seq<seq<bool>>, e: seq<bool>, R: seq<seq<bool>>,
                      ops: seq<Op>)
    requires Decoding(k, m, w, cols, B, e, R, ops)
    ensures |e| == k + m && Recoverable(e, k)
    ensures IsBitmatrix(R, |R|, cols) && Shape(k, |RowIds(e, k)| - k, w, cols, |R|)
    ensures Decodable(w, k, cols, B, e) ==> forall r | 0 <= r < |R| :: DecodesRow(w, k, cols, B, RowIds(e, k), R, r)
    ensures Computes(|RowIds(e, k)|, w, cols, R, ops)
  {
  }

  lemma CandidateFacts(k: nat, m: nat, w: nat, ps: nat, stripes: nat, cols: nat, B: seq<seq<bool>>, e: seq<bool>,
                       S: seq<seq<bool>>, now: seq<seq<bool>>)
    requires 0 < w && IsBitmatrix(B, |B|, cols) && Candidate(k, m, w, ps, stripes, cols, B, e, S, now)
    ensures |e| == k + m && Recoverable(e, k)
    ensures Sized(S, k + m, Size(w, ps, stripes)) && Sized(now, k + m, Size(w, ps, stripes))
    ensures CodewordBuffers(w, ps, stripes, cols, B, S)
    ensures forall x | 0 <= x < k :: now[RowIds(e, k)[x]] == S[RowIds(e, k)[x]]
  {
  }

  // A run of the schedule over all stripes, for pointers ids, encodes with R.
  lemma PickedRun(k: nat, m: nat, w: nat, ps: nat, stripes: nat, cols: nat, ids: seq<nat>, R: seq<seq<bool>>,
                  ops: seq<Op>, n: nat, now: seq<seq<bool>>)
    requires 0 < w && IsBitmatrix(R, |R|, cols) && Computes(|ids|, w, cols, R, ops) && n == cols + |R|
    requires k <= |ids| && (forall x | 0 <= x < |ids| :: ids[x] < k + m) && Shape(k, |ids| - k, w, cols, |R|)
    requires Sized(now, k + m, Size(w, ps, stripes))
    ensures n == |ids| * w && Sized(Pick(now, ids), |ids|, Size(w, ps, stripes))
    ensures Sized(RunStripes(w, ps, Pick(now, ids), stripes, ops), |ids|, Size(w, ps, stripes))
    ensures EncodedBuffers(w, ps, stripes, cols, R, Pick(now, ids), RunStripes(w, ps, Pick(now, ids), stripes, ops))
  {
    hide Shape, Size, Computes, RunStripes, Pick, EncodedBuffers;
    AllPackets(k, |ids| - k, w, cols, |R|);
    PickSized(now, ids, k + m, Size(w, ps, stripes));
    StripesEncode(w, ps, stripes, cols, R, Pick(now, ids), ops);
  }

  // It gives what S has there exactly when the packets it never writes are clear.
  lemma RunExact(k: nat, m: nat, w: nat, ps: nat, stripes: nat, cols: nat, B: seq<seq<bool>>, ids: seq<nat>,
                 R: seq<seq<bool>>, n: nat, S: seq<seq<bool>>, now: seq<seq<bool>>, T': seq<seq<bool>>)
    requires Restoring(k, m, w, cols, B, ids, R) && n == cols + |R| == |ids| * w
    requires Sized(S, k + m, Size(w, ps, stripes)) && Sized(now, k + m, Size(w, ps, stripes))
    requires Sized(T', |ids|, Size(w, ps, stripes))
    requires CodewordBuffers(w, ps, stripes, cols, B, S) && forall x | 0 <= x < k :: now[ids[x]] == S[ids[x]]
    requires EncodedBuffers(w, ps, stripes, cols, R, Pick(now, ids), T')
    ensures T' == Pick(S, ids) <==>
      forall t, b | 0 <= t < stripes && 0 <= b < ps :: ClearView(w, ps, n, k, cols, B, ids, now, t, b)
  {
    hide Shape, View, Size, Encoded, DecodesRow, ClearView, Nonsingular, SurvivorMatrix, Pick, Arranged, CodewordAt;
    forall t, b | 0 <= t < stripes && 0 <= b < ps
      ensures View(w, ps, n, T', t, b) == View(w, ps, n, Pick(S, ids), t, b) <==>
        ClearView(w, ps, n, k, cols, B, ids, now, t, b)
    {
      assert EncodedAt(w, ps, cols, R, Pick(now, ids), T', t, b) && CodewordAt(w, ps, cols, B, S, t, b);
      ReadsAt(k, m, w, ps, stripes, cols, B, ids, |R|, n, S, now, t, b);
      ExactAt(k, m, w, ps, cols, B, ids, R, n, S, now, t, b);
    }
    if forall t, b | 0 <= t < stripes && 0 <= b < ps :: ClearView(w, ps, n, k, cols, B, ids, now, t, b) {
      PickSized(S, ids, k + m, Size(w, ps, stripes));
      SameViews(w, ps, n, stripes, T', Pick(S, ids));
    }
  }

  lemma DecodingRestores(k: nat, m: nat, w: nat, cols: nat, B: seq<seq<bool>>, e: seq<bool>, R: seq<seq<bool>>,
                         ops: seq<Op>)
    requires Decoding(k, m, w, cols, B, e, R, ops) && Decodable(w, k, cols, B, e)
    ensures Restoring(k, m, w, cols, B, RowIds(e, k), R)
  {
    hide Shape, RowIds, Recoverable, Nonsingular, DecodesRow, Computes;
    IdsBound(e, k);
  }

  /** Over all stripes and bits the schedule turns what the pointers hold into what they held, exactly when the
      packets it never writes are clear. */
  lemma Recovered(k: nat, m: nat, w: nat, ps: nat, stripes: nat, cols: nat, B: seq<seq<bool>>, e: seq<bool>,
                  R: seq<seq<bool>>, ops: seq<Op>, S: seq<seq<bool>>, now: seq<seq<bool>>)
    requires Decoding(k, m, w, cols, B, e, R, ops) && Decodable(w, k, cols, B, e)
    requires Candidate(k, m, w, ps, stripes, cols, B, e, S, now)
    ensures RunStripes(w, ps, Pick(now, RowIds(e, k)), stripes, ops) == Pick(S, RowIds(e, k)) <==>
      ClearBuffers(w, ps, stripes, k, cols, B, e, now)
  {
    hide Shape, Size, DecodingSchedule, RowIds, Computes, RunStripes, Recoverable, ClearView, ClearBuffers, Restoring,
         CodewordBuffers, Decodable, EncodedBuffers, Pick;
    DecodingFacts(k, m, w, cols, B, e, R, ops);
    DecodingRestores(k, m, w, cols, B, e, R, ops);
    ClearViews(k, m, w, ps, stripes, cols, B, e, |R|, cols + |R|, now);
    IdsBound(e, k);
    PickedRun(k, m, w, ps, stripes, cols, RowIds(e, k), R, ops, cols + |R|, now);
    RunExact(k, m, w, ps, stripes, cols, B, RowIds(e, k), R, cols + |R|, S, now,
             RunStripes(w, ps, Pick(now, RowIds(e, k)), stripes, ops));
  }

  // ---- All devices.

  ghost function IndexIn(ids: seq<nat>, d: nat): (x: nat)
    requires d in ids
    ensures x < |ids| && ids[x] == d
  {
    var x :| 0 <= x < |ids| && ids[x] == d;
    x
  }

  /** The buffers after running the schedule on the pointers for the flags e. */
  ghost function Decoded(k: nat, w: nat, ps: nat, stripes: nat, e: seq<bool>, ops: seq<Op>,
                         now: seq<seq<bool>>): (T: seq<seq<bool>>)
    requires Recoverable(e, k) && |now| == |e|
    ensures |T| == |now|
  {
    var ids := RowIds(e, k);
    var run := RunStripes(w, ps, Pick(now, ids), stripes, ops);
    seq(|now|, d requires 0 <= d < |now| => if d in ids then run[IndexIn(ids, d)] else now[d])
  }

  lemma DecodedAt(k: nat, w: nat, ps: nat, stripes: nat, e: seq<bool>, ops: seq<Op>, now: seq<seq<bool>>, x: nat)
    requires Recoverable(e, k) && |now| == |e| && x < |RowIds(e, k)|
    ensures Decoded(k, w, ps, stripes, e, ops, now)[RowIds(e, k)[x]] ==
      RunStripes(w, ps, Pick(now, RowIds(e, k)), stripes, ops)[x]
  {
    hide RowIds, RunStripes, Recoverable, Pick;
    RowIdsDistinct(e, k);
  }

  lemma LostPointer(e: seq<bool>, k: nat, x: nat)
    requires Recoverable(e, k) && x < |RowIds(e, k)|
    ensures e[RowIds(e, k)[x]] <==> x >= k
  {
    hide Where;
    RowIdAt(e, k, x);
  }

  lemma LostIsPointed(e: seq<bool>, k: nat, d: nat) returns (x: nat)
    requires Recoverable(e, k) && d < |e| && e[d]
    ensures k <= x < |RowIds(e, k)| && RowIds(e, k)[x] == d
  {
    hide RowIds, Recoverable;
    RowIdsDistinct(e, k);
    var ids := RowIds(e, k);
    assert d in ids[k..];
    x :| k <= x < |ids| && ids[x] == d;
  }

  // The schedule does not touch what it reads.
  lemma ReadsKept(k: nat, m: nat, w: nat, ps: nat, stripes: nat, cols: nat, B: seq<seq<bool>>, e: seq<bool>,
                  R: seq<seq<bool>>, ops: seq<Op>, now: seq<seq<bool>>)
    requires Decoding(k, m, w, cols, B, e, R, ops) && Recoverable(e, k) && Sized(now, k + m, Size(w, ps, stripes))
    requires |e| == k + m
    ensures forall x | 0 <= x < k :: RunStripes(w, ps, Pick(now, RowIds(e, k)), stripes, ops)[x] == now[RowIds(e, k)[x]]
  {
    hide Shape, Size, DecodingSchedule, RowIds, Computes, RunStripes, Recoverable, EncodedBuffers;
    DecodingFacts(k, m, w, cols, B, e, R, ops);
    IdsBound(e, k);
    var ids := RowIds(e, k);
    PickedRun(k, m, w, ps, stripes, cols, ids, R, ops, cols + |R|, now);
    EncodingKeepsData(k, |ids| - k, w, ps, stripes, cols, R, Pick(now, ids),
                      RunStripes(w, ps, Pick(now, ids), stripes, ops));
  }

  /** Surviving devices keep what they hold. */
  lemma SurvivorsKept(k: nat, m: nat, w: nat, ps: nat, stripes: nat, cols: nat, B: seq<seq<bool>>, e: seq<bool>,
                      R: seq<seq<bool>>, ops: seq<Op>, now: seq<seq<bool>>)
    requires Decoding(k, m, w, cols, B, e, R, ops) && Recoverable(e, k) && Sized(now, k + m, Size(w, ps, stripes))
    requires |e| == k + m
    ensures forall d | 0 <= d < |e| && !e[d] :: Decoded(k, w, ps, stripes, e, ops, now)[d] == now[d]
  {
    hide Decoding, Size, RowIds, RunStripes, Recoverable, Pick;
    ReadsKept(k, m, w, ps, stripes, cols, B, e, R, ops, now);
    forall d | 0 <= d < |e| && !e[d]
      ensures Decoded(k, w, ps, stripes, e, ops, now)[d] == now[d]
    {
      if d in RowIds(e, k) {
        LostPointer(e, k, IndexIn(RowIds(e, k), d));
      }
    }
  }

  /** The lost devices hold what they should. */
  ghost predicate LostRestored(e: seq<bool>, S: seq<seq<bool>>, T: seq<seq<bool>>) {
    |e| == |S| == |T| && forall d | 0 <= d < |e| && e[d] :: T[d] == S[d]
  }

  lemma LostIsPicked(k: nat, m: nat, w: nat, ps: nat, stripes: nat, cols: nat, B: seq<seq<bool>>, e: seq<bool>,
                     R: seq<seq<bool>>, ops: seq<Op>, S: seq<seq<bool>>, now: seq<seq<bool>>)
    requires Decoding(k, m, w, cols, B, e, R, ops) && Candidate(k, m, w, ps, stripes, cols, B, e, S, now)
    ensures LostRestored(e, S, Decoded(k, w, ps, stripes, e, ops, now)) <==>
      RunStripes(w, ps, Pick(now, RowIds(e, k)), stripes, ops) == Pick(S, RowIds(e, k))
  {
    hide Decoding, Size, RowIds, RunStripes, Recoverable, CodewordBuffers, Decoded;
    ReadsKept(k, m, w, ps, stripes, cols, B, e, R, ops, now);
    var ids, T := RowIds(e, k), Decoded(k, w, ps, stripes, e, ops, now);
    var run := RunStripes(w, ps, Pick(now, ids), stripes, ops);
    forall x | 0 <= x < |ids|
      ensures T[ids[x]] == run[x] && (e[ids[x]] <==> x >= k)
    {
      DecodedAt(k, w, ps, stripes, e, ops, now, x);
      LostPointer(e, k, x);
    }
    if run == Pick(S, ids) {
      forall d | 0 <= d < |e| && e[d]
        ensures T[d] == S[d]
      {
        var x := LostIsPointed(e, k, d);
      }
    }
  }
}

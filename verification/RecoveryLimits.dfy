/** Exactly when a decoding schedule restores what was lost: in one run, and in all runs. */
module RecoveryLimits {
  import opened Arithmetic
  import opened LinearAlgebra
  import opened Fields
  import opened Schedules
  import opened Buffers
  import opened Erasures
  import opened DecodingTheory
  import opened ScheduledDecoding
  import opened DecodingLimits
  import opened Codewords
  import opened Recovery

  // ---- The exact condition.

  // When the survivors do not determine the data, another codeword shows the same on every device read.
  lemma AnotherCandidate(k: nat, m: nat, w: nat, ps: nat, stripes: nat, cols: nat, B: seq<seq<bool>>, e: seq<bool>,
                         rows: nat, S: seq<seq<bool>>, now: seq<seq<bool>>) returns (S': seq<seq<bool>>)
    requires 0 < w && 0 < ps && 0 < stripes && Shape(k, m, w, cols, |B|) && IsBitmatrix(B, |B|, cols)
    requires Candidate(k, m, w, ps, stripes, cols, B, e, S, now) && Shape(k, |RowIds(e, k)| - k, w, cols, rows)
    requires !Decodable(w, k, cols, B, e)
    ensures Candidate(k, m, w, ps, stripes, cols, B, e, S', now)
    ensures exists d | 0 <= d < |e| && e[d] :: S'[d] != S[d]
  {
    hide Shape, Size, RowIds, Recoverable, CodewordBuffers, FromPackets, Unseen, XorBuffers, Decodable;
    var x, r := SingularUnseen(k, m, w, cols, B, e, rows);
    IdsBound(e, k);
    UnseenIsBits(w, cols, B, RowIds(e, k), rows, x, r);
    var C := Extended(cols, B, x);
    var X := FromPackets(w, ps, stripes, k + m, C);
    S' := XorBuffers(S, X);
    SumIsCodeword(k, m, w, ps, stripes, cols, B, S, C);
    forall y | 0 <= y < k
      ensures S'[RowIds(e, k)[y]] == S[RowIds(e, k)[y]]
    {
      UnseenDevice(k, m, w, ps, stripes, cols, B, e, rows, x, r, y);
      XorZero(S, X, RowIds(e, k)[y]);
    }
    var d, i := UnseenDiffers(k, m, w, ps, stripes, cols, B, e, rows, x, r);
    XorOne(S, X, d, i);
  }

  lemma UnseenIsBits(w: nat, cols: nat, B: seq<seq<bool>>, ids: seq<nat>, rows: nat, x: seq<bool>, r: nat)
    requires 0 < w && IsBitmatrix(B, |B|, cols) && Unseen(w, cols, B, ids, rows, x, r)
    ensures |x| == cols && r < rows
  {
  }

  lemma XorZero(S: seq<seq<bool>>, X: seq<seq<bool>>, d: nat)
    requires |S| == |X| && (forall d | 0 <= d < |S| :: |S[d]| == |X[d]|) && d < |S|
    requires forall i | 0 <= i < |X[d]| :: !X[d][i]
    ensures XorBuffers(S, X)[d] == S[d]
  {
  }

  lemma XorOne(S: seq<seq<bool>>, X: seq<seq<bool>>, d: nat, i: nat)
    requires |S| == |X| && (forall d | 0 <= d < |S| :: |S[d]| == |X[d]|) && d < |S| && i < |X[d]| && X[d][i]
    ensures XorBuffers(S, X)[d] != S[d]
  {
    assert XorBuffers(S, X)[d][i] != S[d][i];
  }

  // The devices that are read show nothing of data that is unseen ...
  lemma UnseenDevice(k: nat, m: nat, w: nat, ps: nat, stripes: nat, cols: nat, B: seq<seq<bool>>, e: seq<bool>,
                     rows: nat, x: seq<bool>, r: nat, z: nat)
    requires 0 < w && 0 < ps && Shape(k, m, w, cols, |B|) && IsBitmatrix(B, |B|, cols) && |e| == k + m
    requires Recoverable(e, k)
    requires Unseen(w, cols, B, RowIds(e, k), rows, x, r) && z < k
    ensures var X := FromPackets(w, ps, stripes, k + m, Extended(cols, B, x))[RowIds(e, k)[z]];
      forall i | 0 <= i < |X| :: !X[i]
  {
    hide RowIds, Recoverable, Pos, FromPackets, Extended;
    var ids, C := RowIds(e, k), Extended(cols, B, x);
    var A := Arranged(w, cols + rows, ids, C);
    forall y | 0 <= y < w && Pos(w, ids[z], y) < |C|
      ensures !C[Pos(w, ids[z], y)]
    {
      DataPosition(k, m, w, cols, |B|, z, y);
      DivModUnique(w, z, y);
      assert A[..cols][z * w + y] == ZeroVec(F2, cols)[z * w + y];
    }
    FromPacketsZero(w, ps, stripes, k + m, C, ids[z]);
  }

  // ... but a lost one does.
  lemma UnseenDiffers(k: nat, m: nat, w: nat, ps: nat, stripes: nat, cols: nat, B: seq<seq<bool>>, e: seq<bool>,
                      rows: nat, x: seq<bool>, r: nat) returns (d: nat, i: nat)
    requires 0 < w && 0 < ps && 0 < stripes && Shape(k, m, w, cols, |B|) && IsBitmatrix(B, |B|, cols) && |e| == k + m
    requires Recoverable(e, k)
    requires Shape(k, |RowIds(e, k)| - k, w, cols, rows) && Unseen(w, cols, B, RowIds(e, k), rows, x, r)
    ensures d < |e| && e[d] && |x| == cols
    ensures var X := FromPackets(w, ps, stripes, k + m, Extended(cols, B, x))[d]; i < |X| && X[i]
  {
    hide Shape, RowIds, Recoverable, FromPackets, Extended, Pos, Arranged, At, Size;
    var ids, C := RowIds(e, k), Extended(cols, B, x);
    IdsBound(e, k);
    RowHasTarget(k, w, cols, rows, ids, r);
    LostPointer(e, k, k + r / w);
    TargetPacket(k, m, w, cols, |B|, ids, cols + rows, C, r);
    d := ids[k + r / w];
    FromPacketsAt(w, ps, stripes, k + m, C, 0, r % w, 0, d);
    i := At(w, ps, 0, r % w, 0);
  }

  lemma RowHasTarget(k: nat, w: nat, cols: nat, rows: nat, ids: seq<nat>, r: nat)
    requires 0 < w && k <= |ids| && Shape(k, |ids| - k, w, cols, rows) && r < rows
    ensures HasTarget(w, k, ids, r)
  {
    DeviceBound(w, |ids| - k, r);
  }

  // T has the lost devices as in every codeword that agrees with what was read.
  ghost predicate RestoresCandidates(k: nat, m: nat, w: nat, ps: nat, stripes: nat, cols: nat, B: seq<seq<bool>>,
                                     e: seq<bool>, now: seq<seq<bool>>, T: seq<seq<bool>>)
    requires 0 < w && IsBitmatrix(B, |B|, cols)
  {
    forall S | Candidate(k, m, w, ps, stripes, cols, B, e, S, now) :: LostRestored(e, S, T)
  }

  /** One run, exactly: the lost devices end up as in every codeword that agrees with what was read if and only
      if the survivors determine the data and the packets that are never written were zero. */
  lemma DecodedExactly(k: nat, m: nat, w: nat, ps: nat, stripes: nat, cols: nat, B: seq<seq<bool>>, e: seq<bool>,
                       R: seq<seq<bool>>, ops: seq<Op>, S: seq<seq<bool>>, now: seq<seq<bool>>)
    requires Decoding(k, m, w, cols, B, e, R, ops) && Candidate(k, m, w, ps, stripes, cols, B, e, S, now) && 0 < ps
    requires 0 < stripes
    ensures RestoresCandidates(k, m, w, ps, stripes, cols, B, e, now, Decoded(k, w, ps, stripes, e, ops, now)) <==>
      Decodable(w, k, cols, B, e) && ClearBuffers(w, ps, stripes, k, cols, B, e, now)
  {
    if Decodable(w, k, cols, B, e) {
      forall S' | Candidate(k, m, w, ps, stripes, cols, B, e, S', now)
        ensures LostRestored(e, S', Decoded(k, w, ps, stripes, e, ops, now)) <==>
          ClearBuffers(w, ps, stripes, k, cols, B, e, now)
      {
        hide Decoding, Candidate, Decoded, LostRestored, ClearBuffers, Decodable, RunStripes, Pick, RowIds;
        Recovered(k, m, w, ps, stripes, cols, B, e, R, ops, S', now);
        LostIsPicked(k, m, w, ps, stripes, cols, B, e, R, ops, S', now);
      }
    } else {
      hide Shape, Size, RowIds, Recoverable, CodewordBuffers, Decodable, DecodingSchedule, Computes, Decoded,
           ClearBuffers, Candidate;
      DecodingFacts(k, m, w, cols, B, e, R, ops);
      var S' := AnotherCandidate(k, m, w, ps, stripes, cols, B, e, |R|, S, now);
    }
  }

  // ---- Over all runs.

  /** S is what the devices held when all was well: a codeword that the survivors still hold. */
  ghost predicate Original(k: nat, m: nat, w: nat, ps: nat, stripes: nat, cols: nat, B: seq<seq<bool>>, e: seq<bool>,
                           S: seq<seq<bool>>, now: seq<seq<bool>>)
    requires 0 < w && IsBitmatrix(B, |B|, cols)
  {
    && |e| == k + m && Sized(S, k + m, Size(w, ps, stripes)) && Sized(now, k + m, Size(w, ps, stripes))
    && CodewordBuffers(w, ps, stripes, cols, B, S)
    && forall d | 0 <= d < k + m && !e[d] :: now[d] == S[d]
  }

  lemma OriginalIsCandidate(k: nat, m: nat, w: nat, ps: nat, stripes: nat, cols: nat, B: seq<seq<bool>>, e: seq<bool>,
                            S: seq<seq<bool>>, now: seq<seq<bool>>)
    requires 0 < w && IsBitmatrix(B, |B|, cols) && Original(k, m, w, ps, stripes, cols, B, e, S, now)
    requires Recoverable(e, k)
    ensures Candidate(k, m, w, ps, stripes, cols, B, e, S, now)
  {
    hide RowIds, Recoverable, CodewordBuffers, Size;
    forall x | 0 <= x < k
      ensures now[RowIds(e, k)[x]] == S[RowIds(e, k)[x]]
    {
      LostPointer(e, k, x);
    }
  }

  // One run of the schedule, restoring S.
  ghost predicate RestoresRun(k: nat, m: nat, w: nat, ps: nat, stripes: nat, cols: nat, B: seq<seq<bool>>, e: seq<bool>,
                              ops: seq<Op>, S: seq<seq<bool>>, now: seq<seq<bool>>)
    requires 0 < w && IsBitmatrix(B, |B|, cols) && Recoverable(e, k)
  {
    Original(k, m, w, ps, stripes, cols, B, e, S, now) ==> Decoded(k, w, ps, stripes, e, ops, now) == S
  }

  lemma RestoredOrNot(k: nat, m: nat, w: nat, ps: nat, stripes: nat, cols: nat, B: seq<seq<bool>>, e: seq<bool>,
                      R: seq<seq<bool>>, ops: seq<Op>, S: seq<seq<bool>>, now: seq<seq<bool>>)
    requires Decoding(k, m, w, cols, B, e, R, ops) && Recoverable(e, k)
    requires Original(k, m, w, ps, stripes, cols, B, e, S, now)
    ensures Decoded(k, w, ps, stripes, e, ops, now) == S <==>
      LostRestored(e, S, Decoded(k, w, ps, stripes, e, ops, now))
    ensures Decodable(w, k, cols, B, e) ==>
      (Decoded(k, w, ps, stripes, e, ops, now) == S <==> ClearBuffers(w, ps, stripes, k, cols, B, e, now))
  {
    hide Shape, DecodingSchedule, Size, Recoverable, CodewordBuffers, Decoded, Decodable, ClearBuffers, RunStripes,
         RowIds, Candidate;
    OriginalIsCandidate(k, m, w, ps, stripes, cols, B, e, S, now);
    SurvivorsKept(k, m, w, ps, stripes, cols, B, e, R, ops, now);
    LostIsPicked(k, m, w, ps, stripes, cols, B, e, R, ops, S, now);
    if Decodable(w, k, cols, B, e) {
      Recovered(k, m, w, ps, stripes, cols, B, e, R, ops, S, now);
    }
  }

  // What is left of S when device d alone lost what it held and holds v instead.
  lemma StillOriginal(k: nat, m: nat, w: nat, ps: nat, stripes: nat, cols: nat, B: seq<seq<bool>>, e: seq<bool>,
                      S: seq<seq<bool>>, d: nat, v: seq<bool>)
    requires 0 < w && IsBitmatrix(B, |B|, cols) && |e| == k + m && Sized(S, k + m, Size(w, ps, stripes))
    requires CodewordBuffers(w, ps, stripes, cols, B, S) && d < |e| && e[d] && |v| == Size(w, ps, stripes)
    ensures Original(k, m, w, ps, stripes, cols, B, e, S, S[d := v])
  {
  }

  // A lost packet that is always zero, holding a one.
  lemma StalePacket(k: nat, m: nat, w: nat, ps: nat, stripes: nat, cols: nat, B: seq<seq<bool>>, e: seq<bool>,
                    S: seq<seq<bool>>) returns (now: seq<seq<bool>>)
    requires 0 < w && 0 < ps && 0 < stripes && IsBitmatrix(B, |B|, cols) && |e| == k + m
    requires Sized(S, k + m, Size(w, ps, stripes))
    requires CodewordBuffers(w, ps, stripes, cols, B, S) && !NonzeroRows(w, k, cols, B, e)
    ensures Original(k, m, w, ps, stripes, cols, B, e, S, now) && !ClearBuffers(w, ps, stripes, k, cols, B, e, now)
  {
    hide Size, At, CodewordBuffers, Original, Pos;
    var d, y :| k <= d < |e| && e[d] && 0 <= y < w && Ones(Generator(cols, B, Pos(w, d, y)), cols) == 0;
    AtBound(w, ps, stripes, 0, y, 0);
    var v := seq(Size(w, ps, stripes), i => true);
    now := S[d := v];
    StillOriginal(k, m, w, ps, stripes, cols, B, e, S, d, v);
    assert !ClearAt(w, ps, cols, B, now, d, y, 0, 0);
  }

  // The survivors of S, and in the place of the lost devices what T holds.
  ghost function Mixed(e: seq<bool>, S: seq<seq<bool>>, T: seq<seq<bool>>): (now: seq<seq<bool>>)
    requires |e| == |S| == |T|
    ensures |now| == |e|
  {
    seq(|e|, d requires 0 <= d < |e| => if e[d] then T[d] else S[d])
  }

  lemma MixedIsOriginal(k: nat, m: nat, w: nat, ps: nat, stripes: nat, cols: nat, B: seq<seq<bool>>, e: seq<bool>,
                        S: seq<seq<bool>>, T: seq<seq<bool>>)
    requires 0 < w && IsBitmatrix(B, |B|, cols) && |e| == k + m && Sized(S, k + m, Size(w, ps, stripes))
    requires Sized(T, k + m, Size(w, ps, stripes))
    requires CodewordBuffers(w, ps, stripes, cols, B, S)
    ensures Original(k, m, w, ps, stripes, cols, B, e, S, Mixed(e, S, T))
  {
  }

  // Two codewords that agree on what is read, with the same in the place of what is lost: one run serves both.
  lemma SameRun(k: nat, m: nat, w: nat, ps: nat, stripes: nat, cols: nat, B: seq<seq<bool>>, e: seq<bool>, ops: seq<Op>,
                S: seq<seq<bool>>, S': seq<seq<bool>>, d: nat)
    requires 0 < w && IsBitmatrix(B, |B|, cols) && Recoverable(e, k)
    requires Candidate(k, m, w, ps, stripes, cols, B, e, S', S) && |S| == |e|
    requires d < |e| && e[d]
    ensures Decoded(k, w, ps, stripes, e, ops, S)[d] == Decoded(k, w, ps, stripes, e, ops, Mixed(e, S', S))[d]
  {
    hide RowIds, Recoverable, CodewordBuffers, Size, RunStripes;
    var ids, M := RowIds(e, k), Mixed(e, S', S);
    forall x | 0 <= x < |ids|
      ensures Pick(S, ids)[x] == Pick(M, ids)[x]
    {
      LostPointer(e, k, x);
    }
    assert Pick(S, ids) == Pick(M, ids);
  }

  lemma SelfCandidate(k: nat, m: nat, w: nat, ps: nat, stripes: nat, cols: nat, B: seq<seq<bool>>, e: seq<bool>,
                      S: seq<seq<bool>>)
    requires 0 < w && IsBitmatrix(B, |B|, cols) && Recoverable(e, k) && |e| == k + m
    requires Sized(S, k + m, Size(w, ps, stripes))
    requires CodewordBuffers(w, ps, stripes, cols, B, S)
    ensures Candidate(k, m, w, ps, stripes, cols, B, e, S, S) && Original(k, m, w, ps, stripes, cols, B, e, S, S)
  {
  }

  // When the survivors do not determine the data, some run goes wrong.
  lemma SingularFails(k: nat, m: nat, w: nat, ps: nat, stripes: nat, cols: nat, B: seq<seq<bool>>, e: seq<bool>,
                      R: seq<seq<bool>>, ops: seq<Op>)
    requires Decoding(k, m, w, cols, B, e, R, ops) && Recoverable(e, k) && !Decodable(w, k, cols, B, e) && 0 < ps
    requires 0 < stripes
    ensures exists S, now :: !RestoresRun(k, m, w, ps, stripes, cols, B, e, ops, S, now)
  {
    hide Shape, Size, RowIds, Recoverable, CodewordBuffers, Decodable, DecodingSchedule, Computes, Decoded, Candidate,
         Original, Mixed;
    DecodingFacts(k, m, w, cols, B, e, R, ops);
    var S := ZeroBuffers(k, m, w, ps, stripes, cols, B);
    SelfCandidate(k, m, w, ps, stripes, cols, B, e, S);
    var S' := AnotherCandidate(k, m, w, ps, stripes, cols, B, e, |R|, S, S);
    CandidateFacts(k, m, w, ps, stripes, cols, B, e, S', S);
    var d :| 0 <= d < |e| && e[d] && S'[d] != S[d];
    MixedIsOriginal(k, m, w, ps, stripes, cols, B, e, S', S);
    SameRun(k, m, w, ps, stripes, cols, B, e, ops, S, S', d);
    if RestoresRun(k, m, w, ps, stripes, cols, B, e, ops, S, S) {
      assert !RestoresRun(k, m, w, ps, stripes, cols, B, e, ops, S', Mixed(e, S', S));
    }
  }

  /** All runs, exactly: the schedule brings back every codeword, whatever the lost devices hold, if and only if
      the survivors determine the data and no row of a lost coding device is zero. */
  lemma ScheduleExact(k: nat, m: nat, w: nat, ps: nat, stripes: nat, cols: nat, B: seq<seq<bool>>, e: seq<bool>,
                      R: seq<seq<bool>>, ops: seq<Op>)
    requires Decoding(k, m, w, cols, B, e, R, ops) && Recoverable(e, k) && 0 < ps && 0 < stripes
    ensures (forall S, now :: RestoresRun(k, m, w, ps, stripes, cols, B, e, ops, S, now)) <==>
      Decodable(w, k, cols, B, e) && NonzeroRows(w, k, cols, B, e)
  {
    if !Decodable(w, k, cols, B, e) {
      SingularFails(k, m, w, ps, stripes, cols, B, e, R, ops);
    } else {
      hide Shape, Size, RowIds, Recoverable, CodewordBuffers, Decodable, DecodingSchedule, Decoded, Original,
           ClearBuffers, NonzeroRows;
      DecodingFacts(k, m, w, cols, B, e, R, ops);
      if NonzeroRows(w, k, cols, B, e) {
        forall S, now | Original(k, m, w, ps, stripes, cols, B, e, S, now)
          ensures Decoded(k, w, ps, stripes, e, ops, now) == S
        {
          RestoredOrNot(k, m, w, ps, stripes, cols, B, e, R, ops, S, now);
          NonzeroIsClear(w, ps, stripes, k, cols, B, e, now);
        }
      } else {
        var S := ZeroBuffers(k, m, w, ps, stripes, cols, B);
        var now := StalePacket(k, m, w, ps, stripes, cols, B, e, S);
        RestoredOrNot(k, m, w, ps, stripes, cols, B, e, R, ops, S, now);
        assert !RestoresRun(k, m, w, ps, stripes, cols, B, e, ops, S, now);
      }
    }
  }

  // ---- Inputs on which the library fails.

  lemma OneBit()
    ensures At(1, 1, 0, 0, 0) == 0 && Size(1, 1, 1) == 1
  {
  }

  // Three devices of one bit each.
  lemma OneBitView(S: seq<seq<bool>>, C: seq<bool>, q: nat)
    requires Sized(S, 3, 1) && |C| == 3 && S[0] == [C[0]] && S[1] == [C[1]] && S[2] == [C[2]] && q < 3
    ensures View(1, 1, 3, S, 0, 0)[q] == C[q]
  {
    hide At, Size, View;
    OneBit();
    ViewAt(1, 1, 3, 1, S, 0, 0, q, 0);
    assert q * 1 + 0 == q;
  }

  lemma OneBitCodeword(cols: nat, B: seq<seq<bool>>, S: seq<seq<bool>>, C: seq<bool>)
    requires Sized(S, 3, 1) && |C| == 3 && S[0] == [C[0]] && S[1] == [C[1]] && S[2] == [C[2]]
    requires IsBitmatrix(B, |B|, cols) && Codeword(cols, B, C)
    ensures CodewordBuffers(1, 1, 1, cols, B, S) && Size(1, 1, 1) == 1
  {
    hide View, At, Size, Codeword;
    OneBit();
    forall t, b | 0 <= t < 1 && 0 <= b < 1
      ensures CodewordAt(1, 1, cols, B, S, t, b)
    {
      CodewordLength(cols, B, C);
      OneBitView(S, C, 0);
      OneBitView(S, C, 1);
      OneBitView(S, C, 2);
      assert View(1, 1, 3, S, 0, 0) == C;
    }
  }

  lemma CodewordLength(cols: nat, B: seq<seq<bool>>, C: seq<bool>)
    requires IsBitmatrix(B, |B|, cols) && Codeword(cols, B, C)
    ensures |C| == cols + |B|
  {
  }

  lemma ExampleFlags()
    ensures Recoverable([false, true, false], 2) && RowIds([false, true, false], 2) == [0, 2, 1]
  {
    var e := [false, true, false];
    assert Where(e, 0, 0, true) == [] && Where(e, 0, 1, true) == [] && Where(e, 0, 2, true) == [1];
    assert Where(e, 2, 2, false) == [] && Where(e, 2, 3, false) == [2];
    assert Where(e, 2, 2, true) == [] && Where(e, 2, 3, true) == [];
    assert StandIn(e, 2, 0) == 0 && StandIn(e, 2, 1) == 2;
  }

  // Two data devices and a parity device that copies the first: with the second lost, the matrix is singular, ...
  lemma SingularExampleMatrix()
    ensures var B, e := [[true, false]], [false, true, false];
      && Shape(2, 1, 1, 2, 1) && IsBitmatrix(B, 1, 2) && Recoverable(e, 2)
      && NonzeroRows(1, 2, 2, B, e) && !Decodable(1, 2, 2, B, e)
  {
    hide RowIds, Recoverable;
    var B, e, x := [[true, false]], [false, true, false], [false, true];
    ExampleFlags();
    var D := SurvivorMatrix(1, 2, B, RowIds(e, 2));
    assert D[0] == [true, false] && D[1] == [true, false];
    assert MatVec(F2, D, x) == ZeroVec(F2, 2);
    assert x[1] != ZeroVec(F2, 2)[1];
  }

  /** ... and the same buffers are left of two different codewords. */
  lemma ExampleCodeword(b: bool)
    ensures IsBitmatrix([[true, false]], 1, 2) && Codeword(2, [[true, false]], [false, b, false])
  {
    var B, C := [[true, false]], [false, b, false];
    assert C[..2] == [false, b];
    assert DotTo(F2, B[0], C[..2], 0) == false && DotTo(F2, B[0], C[..2], 1) == false;
    assert Dot(F2, B[0], C[..2]) == false;
  }

  lemma SingularExample()
    ensures var B, e, now := [[true, false]], [false, true, false], [[false], [false], [false]];
      && !Decodable(1, 2, 2, B, e)
      && Original(2, 1, 1, 1, 1, 2, B, e, [[false], [false], [false]], now)
      && Original(2, 1, 1, 1, 1, 2, B, e, [[false], [true], [false]], now)
  {
    hide CodewordBuffers, Codeword, Decodable, Size;
    var B, e := [[true, false]], [false, true, false];
    var now, S := [[false], [false], [false]], [[false], [true], [false]];
    SingularExampleMatrix();
    ExampleCodeword(false);
    ExampleCodeword(true);
    OneBitCodeword(2, B, now, [false, false, false]);
    OneBitCodeword(2, B, S, [false, true, false]);
  }
}

/** Running a decoding schedule, built on the fly or taken from a cache, restores every lost device. */
module ScheduledRecovery {
  import opened Arithmetic
  import opened Elimination
  import opened Schedules
  import opened Compilers
  import opened Buffers
  import opened Encoders
  import opened Erasures
  import opened Options
  import opened ScheduledDecoding
  import opened Recovery
  import opened RecoveryLimits

  // The pointers of the devices that the flags e ask for.
  ghost predicate Picked(ptrs: seq<array<bool>>, picked: seq<array<bool>>, e: seq<bool>, k: nat) {
    && Recoverable(e, k) && |ptrs| == |e| && |picked| == |RowIds(e, k)|
    && forall x | 0 <= x < |picked| :: picked[x] == ptrs[RowIds(e, k)[x]]
  }

  lemma PickedFacts(ptrs: seq<array<bool>>, picked: seq<array<bool>>, e: seq<bool>, k: nat, size: nat)
    requires Picked(ptrs, picked, e, k) && Distinct(ptrs) && AllSized(ptrs, size)
    ensures Distinct(picked) && AllSized(picked, size) && (forall x | 0 <= x < |picked| :: picked[x] in ptrs)
    ensures Contents(picked) == Pick(Contents(ptrs), RowIds(e, k))
    ensures forall d | 0 <= d < |e| && d !in RowIds(e, k) :: ptrs[d] !in picked
  {
    hide RowIds, Recoverable;
    RowIdsDistinct(e, k);
    forall d | 0 <= d < |e| && d !in RowIds(e, k)
      ensures ptrs[d] !in picked
    {
      OthersApart(ptrs, picked, RowIds(e, k), d);
    }
  }

  /** Run a decoding schedule on the pointers: the new contents of all buffers. */
  method RunDecoding(k: nat, m: nat, w: nat, operations: array<Op>, ptrs: seq<array<bool>>, picked: seq<array<bool>>,
                     size: nat, ps: nat, ghost stripes: nat, ghost cols: nat, ghost B: seq<seq<bool>>,
                     ghost e: seq<bool>, ghost R: seq<seq<bool>>, ghost ops: seq<Op>)
    requires |ptrs| == k + m && Distinct(ptrs) && AllSized(ptrs, Size(w, ps, stripes)) && size == Size(w, ps, stripes)
    requires 0 < w * ps
    requires Picked(ptrs, picked, e, k)
    requires IsSchedule(operations, ops) && Decoding(k, m, w, cols, B, e, R, ops)
    modifies ptrs
    ensures Recoverable(e, k) && Contents(ptrs) == Decoded(k, w, ps, stripes, e, ops, old(Contents(ptrs)))
  {
    hide Shape, Size, Computes, RunStripes, RowIds, Recoverable, DecodingSchedule, Decoded;
    ghost var now := Contents(ptrs);
    DecodingFacts(k, m, w, cols, B, e, R, ops);
    FitsSchedule(|RowIds(e, k)|, w, cols, R, ops);
    PickedFacts(ptrs, picked, e, k, size);
    RunSchedule(picked, operations, w, ps, size, stripes, ops);
    AllDecoded(ptrs, picked, k, w, ps, stripes, e, ops, now);
  }

  // Every device is either behind a pointer, or was left alone.
  lemma AllDecoded(ptrs: seq<array<bool>>, picked: seq<array<bool>>, k: nat, w: nat, ps: nat, stripes: nat,
                   e: seq<bool>, ops: seq<Op>, now: seq<seq<bool>>)
    requires Recoverable(e, k) && |ptrs| == |e| == |now| && |picked| == |RowIds(e, k)|
    requires forall x | 0 <= x < |picked| :: picked[x] == ptrs[RowIds(e, k)[x]]
    requires Contents(picked) == RunStripes(w, ps, Pick(now, RowIds(e, k)), stripes, ops)
    requires forall d | 0 <= d < |e| && d !in RowIds(e, k) :: ptrs[d][..] == now[d]
    ensures Contents(ptrs) == Decoded(k, w, ps, stripes, e, ops, now)
  {
    hide RowIds, Recoverable, RunStripes, Pick;
    var ids := RowIds(e, k);
    forall d | 0 <= d < |e|
      ensures ptrs[d][..] == Decoded(k, w, ps, stripes, e, ops, now)[d]
    {
      if d in ids {
        assert picked[IndexIn(ids, d)] == ptrs[d];
      }
    }
  }

  lemma FitsSchedule(devs: nat, w: nat, cols: nat, R: seq<seq<bool>>, ops: seq<Op>)
    requires IsBitmatrix(R, |R|, cols) && Computes(devs, w, cols, R, ops)
    ensures Fits(devs, w, ops)
  {
  }

  lemma OthersApart(ptrs: seq<array<bool>>, picked: seq<array<bool>>, ids: seq<nat>, d: nat)
    requires Distinct(ptrs) && |picked| == |ids| && d < |ptrs| && d !in ids
    requires forall x | 0 <= x < |ids| :: ids[x] < |ptrs| && picked[x] == ptrs[ids[x]]
    ensures ptrs[d] !in picked
  {
    forall x | 0 <= x < |picked|
      ensures picked[x] != ptrs[d]
    {
      assert ids[x] in ids;
    }
  }

  /** What a run leaves: how much of it is right, and exactly when. */
  ghost predicate Outcome(k: nat, m: nat, w: nat, ps: nat, stripes: nat, cols: nat, B: seq<seq<bool>>, e: seq<bool>,
                          S: seq<seq<bool>>, now: seq<seq<bool>>, T: seq<seq<bool>>)
    requires 0 < w && IsBitmatrix(B, |B|, cols)
  {
    && |e| == |now| == |T|
    && (forall d | 0 <= d < |e| && !e[d] :: T[d] == now[d])
    && (0 < stripes && Candidate(k, m, w, ps, stripes, cols, B, e, S, now) ==>
          (RestoresCandidates(k, m, w, ps, stripes, cols, B, e, now, T) <==>
             Decodable(w, k, cols, B, e) && ClearBuffers(w, ps, stripes, k, cols, B, e, now)))
    && (Decodable(w, k, cols, B, e) && NonzeroRows(w, k, cols, B, e) ==>
          Original(k, m, w, ps, stripes, cols, B, e, S, now) ==> T == S)
  }

  lemma RunOutcome(k: nat, m: nat, w: nat, ps: nat, stripes: nat, cols: nat, B: seq<seq<bool>>, e: seq<bool>,
                   R: seq<seq<bool>>, ops: seq<Op>, S: seq<seq<bool>>, now: seq<seq<bool>>)
    requires Decoding(k, m, w, cols, B, e, R, ops) && Recoverable(e, k) && 0 < ps && |e| == k + m
    requires Sized(now, k + m, Size(w, ps, stripes))
    ensures Outcome(k, m, w, ps, stripes, cols, B, e, S, now, Decoded(k, w, ps, stripes, e, ops, now))
  {
    hide Shape, DecodingSchedule, Size, Recoverable, Decoded, Decodable, NonzeroRows, ClearBuffers, Candidate, Original,
         RestoresCandidates;
    SurvivorsKept(k, m, w, ps, stripes, cols, B, e, R, ops, now);
    if 0 < stripes && Candidate(k, m, w, ps, stripes, cols, B, e, S, now) {
      DecodedExactly(k, m, w, ps, stripes, cols, B, e, R, ops, S, now);
    }
    if Decodable(w, k, cols, B, e) && NonzeroRows(w, k, cols, B, e) &&
        Original(k, m, w, ps, stripes, cols, B, e, S, now) {
      NonzeroIsClear(w, ps, stripes, k, cols, B, e, now);
      RestoredOrNot(k, m, w, ps, stripes, cols, B, e, R, ops, S, now);
    }
  }

  lemma BuffersSized(ptrs: seq<array<bool>>, devs: nat, w: nat, ps: nat, stripes: nat)
    requires |ptrs| == devs && AllSized(ptrs, Size(w, ps, stripes)) && 0 < w * ps
    ensures Sized(Contents(ptrs), devs, Size(w, ps, stripes)) && 0 < ps
  {
    hide Size;
    FactorsPositive(w, ps);
  }

  /** jerasure_schedule_decode_lazy. Unless more than m devices are lost, which is refused without touching a
      buffer, a decoding schedule is run on them. */
  method ScheduleDecodeLazy(k: nat, m: nat, w: nat, bitmatrix: array2<bool>, erasures: seq<nat>, ptrs: seq<array<bool>>,
                            size: nat, ps: nat, smart: bool, ghost stripes: nat, ghost S: seq<seq<bool>>)
    returns (r: int, ghost R: seq<seq<bool>>, ghost ops: seq<Op>)
    requires 0 < w && Shape(k, m, w, bitmatrix.Length1, bitmatrix.Length0)
    requires NoRepeats(erasures) && (forall i | 0 <= i < |erasures| :: erasures[i] < k + m)
    requires smart ==> |erasures| > 0
    requires |ptrs| == k + m && Distinct(ptrs) && AllSized(ptrs, Size(w, ps, stripes)) && size == Size(w, ps, stripes)
    requires 0 < w * ps
    modifies ptrs
    ensures r == if |erasures| > m then -1 else 0
    ensures r == -1 ==> Contents(ptrs) == old(Contents(ptrs))
    ensures r == 0 ==> var e := FlagsOf(k + m, erasures);
      && Recoverable(e, k) && Decoding(k, m, w, bitmatrix.Length1, Rows(bitmatrix), e, R, ops)
      && Contents(ptrs) == Decoded(k, w, ps, stripes, e, ops, old(Contents(ptrs)))
    ensures r == 0 ==>
      Outcome(k, m, w, ps, stripes, bitmatrix.Length1, Rows(bitmatrix), FlagsOf(k + m, erasures), S,
              old(Contents(ptrs)), Contents(ptrs))
  {
    hide Shape, Size, DecodingSchedule, Elements, Where, Outcome, Decoded, Recoverable;
    ghost var cols, B, now := bitmatrix.Length1, Rows(bitmatrix), Contents(ptrs);
    R, ops := [], [];
    CountsMatch(k, m, erasures);
    var picked := SetUpPtrs(k, m, erasures, ptrs);
    if picked == None {
      return -1, R, ops;
    }
    var operations;
    operations, R, ops := GenerateDecodingSchedule(k, m, w, bitmatrix, erasures, smart);
    if operations == null {
      return -1, R, ops;
    }
    BuffersSized(ptrs, k + m, w, ps, stripes);
    RunDecoding(k, m, w, operations, ptrs, picked.value, size, ps, stripes, cols, B, FlagsOf(k + m, erasures), R, ops);
    RunOutcome(k, m, w, ps, stripes, cols, B, FlagsOf(k + m, erasures), R, ops, S, now);
    assert Rows(bitmatrix) == B;
    r := 0;
  }

  // ---- The schedule cache, for m = 2.

  ghost predicate Decodes(k: nat, w: nat, cols: nat, B: seq<seq<bool>>, operations: array<Op>, e: seq<bool>,
                          R: seq<seq<bool>>, ops: seq<Op>)
    requires 0 < w && IsBitmatrix(B, |B|, cols)
    reads operations
  {
    IsSchedule(operations, ops) && DecodingSchedule(k, 2, w, cols, B, e, R, ops)
  }

  function CacheIndex(n: nat, e1: nat, e2: nat): nat { e1 * n + e2 }

  lemma CacheIndexInjective(n: nat, e1: nat, e2: nat, f1: nat, f2: nat)
    requires e1 < n && e2 < n && f1 < n && f2 < n
    ensures CacheIndex(n, e1, e2) < n * (n + 1)
    ensures CacheIndex(n, e1, e2) == CacheIndex(n, f1, f2) ==> e1 == f1 && e2 == f2
  {
    DivModUnique(n, e1, e2);
    DivModUnique(n, f1, f2);
    MulNext(e1, n, n);
    assert n * (n + 1) == n * n + n;
  }

  lemma FlagsSymmetric(n: nat, a: nat, b: nat)
    ensures FlagsOf(n, [a, b]) == FlagsOf(n, [b, a])
    ensures FlagsOf(n, [a, a]) == FlagsOf(n, [a])
  {
  }

  // The entry for e1 and e2 is a schedule that decodes the two devices, or the one when they are equal.
  ghost predicate CacheEntry(k: nat, n: nat, w: nat, cols: nat, B: seq<seq<bool>>, cache: seq<array?<Op>>, e1: nat,
                             e2: nat)
    requires 0 < w && IsBitmatrix(B, |B|, cols)
    reads set x | 0 <= x < |cache| :: cache[x]
  {
    var e := FlagsOf(n, [e1, e2]);
    && CacheIndex(n, e1, e2) < |cache| && cache[CacheIndex(n, e1, e2)] != null
    && exists R, ops :: Decodes(k, w, cols, B, cache[CacheIndex(n, e1, e2)], e, R, ops)
  }

  // The entries in place once row i of the cache has been filled up to j.
  ghost predicate Reached(i: nat, j: nat, e1: nat, e2: nat) {
    (e1 < i && e2 < i) || (e1 == i && e2 < j) || (e2 == i && e1 < j)
  }

  ghost predicate CacheFilled(k: nat, n: nat, w: nat, cols: nat, B: seq<seq<bool>>, cache: seq<array?<Op>>, i: nat,
                              j: nat)
    requires 0 < w && IsBitmatrix(B, |B|, cols)
    reads set x | 0 <= x < |cache| :: cache[x]
  {
    forall e1, e2 | 0 <= e1 < n && 0 <= e2 < n && Reached(i, j, e1, e2) :: CacheEntry(k, n, w, cols, B, cache, e1, e2)
  }

  // Storing the schedule for (i, j), in both orders, adds just these entries.
  lemma CacheStore(k: nat, n: nat, w: nat, cols: nat, B: seq<seq<bool>>, cache: seq<array?<Op>>,
                   cache': seq<array?<Op>>, i: nat, j: nat, operations: array<Op>, R: seq<seq<bool>>, ops: seq<Op>)
    requires 0 < w && IsBitmatrix(B, |B|, cols) && n == k + 2 && j <= i < n && |cache| == n * (n + 1)
    requires CacheFilled(k, n, w, cols, B, cache, i, j)
    requires Decodes(k, w, cols, B, operations, FlagsOf(n, [i, j]), R, ops)
    requires |cache'| == |cache| && CacheIndex(n, i, j) < |cache| && CacheIndex(n, j, i) < |cache|
    requires cache' == cache[CacheIndex(n, i, j) := operations][CacheIndex(n, j, i) := operations]
    ensures CacheFilled(k, n, w, cols, B, cache', i, j + 1)
    ensures i == j ==> CacheFilled(k, n, w, cols, B, cache', i + 1, 0)
  {
    forall e1, e2 | 0 <= e1 < n && 0 <= e2 < n && Reached(i, j + 1, e1, e2)
      ensures CacheEntry(k, n, w, cols, B, cache', e1, e2)
    {
      CacheIndexInjective(n, e1, e2, i, j);
      CacheIndexInjective(n, e1, e2, j, i);
      FlagsSymmetric(n, i, j);
      if !((e1 == i && e2 == j) || (e1 == j && e2 == i)) {
        assert CacheEntry(k, n, w, cols, B, cache, e1, e2);
      }
    }
  }

  /** jerasure_generate_schedule_cache: null unless m is 2, else a schedule for every one or two devices. */
  method GenerateScheduleCache(k: nat, m: nat, w: nat, bitmatrix: array2<bool>, smart: bool)
    returns (cache: array?<array?<Op>>)
    requires 0 < w && Shape(k, m, w, bitmatrix.Length1, bitmatrix.Length0)
    ensures cache == null <==> m != 2
    ensures cache != null ==>
      fresh(cache) && CacheFilled(k, k + m, w, bitmatrix.Length1, Rows(bitmatrix), cache[..], k + m, 0)
  {
    hide Shape, DecodingSchedule, FlagsOf, CacheIndex, IsSchedule;
    if m != 2 {
      return null;
    }
    var n := k + m;
    ghost var cols, B := bitmatrix.Length1, Rows(bitmatrix);
    cache := new array?<Op>[n * (n + 1)](i => null);
    for e1 := 0 to n
      invariant fresh(cache) && Rows(bitmatrix) == B
      invariant CacheFilled(k, n, w, cols, B, cache[..], e1, 0)
    {
      for e2 := 0 to e1
        invariant fresh(cache) && Rows(bitmatrix) == B
        invariant CacheFilled(k, n, w, cols, B, cache[..], e1, e2)
      {
        FillEntry(k, w, bitmatrix, smart, cache, n, e1, e2, cols, B);
      }
      FillEntry(k, w, bitmatrix, smart, cache, n, e1, e1, cols, B);
    }
  }

  method FillEntry(k: nat, w: nat, bitmatrix: array2<bool>, smart: bool, cache: array<array?<Op>>, n: nat, e1: nat,
                   e2: nat, ghost cols: nat, ghost B: seq<seq<bool>>)
    requires 0 < w && Shape(k, 2, w, bitmatrix.Length1, bitmatrix.Length0) && cols == bitmatrix.Length1
    requires B == Rows(bitmatrix)
    requires n == k + 2 && e2 <= e1 < n && cache.Length == n * (n + 1)
    requires CacheFilled(k, n, w, cols, B, cache[..], e1, e2)
    modifies cache
    ensures CacheFilled(k, n, w, cols, B, cache[..], e1, e2 + 1)
    ensures e1 == e2 ==> CacheFilled(k, n, w, cols, B, cache[..], e1 + 1, 0)
  {
    hide Shape, DecodingSchedule, FlagsOf, IsSchedule, CacheFilled, Rows;
    ghost var was := cache[..];
    var erasures := if e1 == e2 then [e1] else [e1, e2];
    FlagsSymmetric(n, e1, e1);
    var operations, R, ops := GenerateDecodingSchedule(k, 2, w, bitmatrix, erasures, smart);
    CacheIndexInjective(n, e1, e2, e1, e2);
    CacheIndexInjective(n, e2, e1, e1, e2);
    assert CacheFilled(k, n, w, cols, B, was, e1, e2);
    assert Decodes(k, w, cols, B, operations, FlagsOf(n, [e1, e2]), R, ops);
    cache[e1 * n + e2] := operations;
    cache[e2 * n + e1] := cache[e1 * n + e2];
    CacheStore(k, n, w, cols, B, was, cache[..], e1, e2, operations, R, ops);
  }

  /** jerasure_schedule_decode_cache: one or two devices, in either order, are restored; a longer list is
      refused. */
  method ScheduleDecodeCache(k: nat, m: nat, w: nat, cache: array<array?<Op>>, erasures: seq<nat>,
                             ptrs: seq<array<bool>>, size: nat, ps: nat, ghost stripes: nat, ghost cols: nat,
                             ghost B: seq<seq<bool>>, ghost S: seq<seq<bool>>) returns (r: int)
    requires 0 < w && m == 2 && Shape(k, m, w, cols, |B|) && IsBitmatrix(B, |B|, cols)
    requires CacheFilled(k, k + m, w, cols, B, cache[..], k + m, 0)
    requires 0 < |erasures| && NoRepeats(erasures) && forall i | 0 <= i < |erasures| :: erasures[i] < k + m
    requires |ptrs| == k + m && Distinct(ptrs) && AllSized(ptrs, Size(w, ps, stripes)) && size == Size(w, ps, stripes)
    requires 0 < w * ps
    modifies ptrs
    ensures r == if |erasures| > m then -1 else 0
    ensures r == -1 ==> Contents(ptrs) == old(Contents(ptrs))
    ensures r == 0 ==>
      Outcome(k, m, w, ps, stripes, cols, B, FlagsOf(k + m, erasures), S, old(Contents(ptrs)), Contents(ptrs))
  {
    hide Shape, Size, DecodingSchedule, Elements, Where, IsSchedule, CacheIndex, Outcome, Decoded, Recoverable;
    ghost var now := Contents(ptrs);
    var n := k + m;
    var e2;
    if |erasures| == 1 {
      e2 := erasures[0];
    } else if |erasures| == 2 {
      e2 := erasures[1];
    } else {
      return -1;
    }
    FlagsSymmetric(n, erasures[0], erasures[0]);
    assert FlagsOf(n, erasures) == FlagsOf(n, [erasures[0], e2]);
    assert CacheEntry(k, n, w, cols, B, cache[..], erasures[0], e2);
    assert CacheIndex(n, erasures[0], e2) == erasures[0] * n + e2 by { CacheIndexIs(n, erasures[0], e2); }
    var operations := cache[erasures[0] * n + e2];
    ghost var R, ops :| Decodes(k, w, cols, B, operations, FlagsOf(n, [erasures[0], e2]), R, ops);
    CountsMatch(k, m, erasures);
    var picked := SetUpPtrs(k, m, erasures, ptrs);
    if picked == None {
      return -1;
    }
    BuffersSized(ptrs, k + m, w, ps, stripes);
    RunDecoding(k, m, w, operations, ptrs, picked.value, size, ps, stripes, cols, B, FlagsOf(n, erasures), R, ops);
    RunOutcome(k, m, w, ps, stripes, cols, B, FlagsOf(n, erasures), R, ops, S, now);
    return 0;
  }

  lemma CacheIndexIs(n: nat, e1: nat, e2: nat)
    ensures CacheIndex(n, e1, e2) == e1 * n + e2
  {
  }
}

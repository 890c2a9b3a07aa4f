/** Why any two lost devices of a Blaum-Roth code are decodable. A kernel vector is numbered from 1 to w and
    extended by 0 at residue 0 modulo p = w + 1. Walking in steps of j - i from 0, the sum of blocks i and j
    makes it constant on two arcs, and the bits at the halves of i and j, one on each arc, make it zero. */
module BlaumRothCode {
  import opened Fields
  import opened LinearAlgebra
  import opened Encoders
  import opened Erasures
  import opened ScheduledDecoding
  import opened Residues
  import opened RaidSix
  import opened RaidSixKernels
  import opened BlaumRoth

  ghost function Ringed(v: seq<bool>): int -> bool {
    n => n % (|v| + 1) != 0 && v[n % (|v| + 1) - 1]
  }

  lemma RingedPeriodic(v: seq<bool>)
    ensures Periodic(|v| + 1, Ringed(v))
  {
  }

  lemma RingedAt(p: nat, v: seq<bool>, n: nat)
    requires p == |v| + 1 && n <= p
    ensures Ringed(v)(n) == (0 < n < p && v[n - 1])
  {
    if n < p {
      RemainderUnique(p, 0, n);
    } else {
      RemainderUnique(p, 1, 0);
    }
  }

  lemma Moved(p: nat, v: seq<bool>, a: int, b: int)
    requires p == |v| + 1 && Cong(p, a, b)
    ensures Ringed(v)(a) == Ringed(v)(b)
  {
  }

  ghost predicate OddPrime(p: int) {
    Prime(p) && p > 2
  }

  lemma IsOdd(p: int)
    requires OddPrime(p)
    ensures p % 2 == 1
  {
  }

  lemma Halves(p: nat, j: nat)
    requires p % 2 == 1 && 0 < j < p
    ensures 0 < Half(p, j) < p && Half(p, j) != j && Cong(p, 2 * Half(p, j), j)
  {
    if j % 2 == 1 {
      Multiple(p, j, 1);
      assert 2 * Half(p, j) == j + p * 1;
    }
  }

  lemma BlockRowDot(w: nat, j: nat, l: nat, v: seq<bool>)
    requires w % 2 == 0 && 1 <= l <= w && j < w && |v| == w
    ensures Dot(F2, BlaumRothBlock(w, j)[l - 1], v) ==
      (Ringed(v)(l + j) != (j > 0 && l == w + 1 - j && (Ringed(v)(j) != Ringed(v)(Half(w + 1, j)))))
  {
    hide Dot, Half, Ringed;
    var p, row := w + 1, BlaumRothBlock(w, j)[l - 1];
    if j > 0 {
      Halves(p, j);
    }
    if j > 0 && l == p - j {
      RingedAt(p, v, p);
      RingedAt(p, v, j);
      RingedAt(p, v, Half(p, j));
      TwoOnes(row, j - 1, Half(p, j) - 1, v);
    } else {
      var m := if l + j >= p then l + j - p else l + j;
      RingedAt(p, v, m);
      Multiple(p, m, 1);
      Moved(p, v, m + p * 1, m);
      OneOne(row, m - 1, v);
    }
  }

  // ---- One block.

  lemma OneBlock(w: nat, j: nat, v: seq<bool>)
    requires w % 2 == 0 && j < w && |v| == w && KillsRows(w, BlaumRothBlock(w, j), v)
    ensures forall n | 0 <= n < w :: !v[n]
  {
    hide Dot, Half, Ringed;
    var p := w + 1;
    forall n | 0 <= n < w && n + 1 != j
      ensures !v[n]
    {
      var l := if n + 1 > j then n + 1 - j else n + 1 - j + p;
      BlockRowDot(w, j, l, v);
      Multiple(p, n + 1, 1);
      Moved(p, v, n + 1 + p * 1, n + 1);
      RingedAt(p, v, n + 1);
    }
    if j > 0 {
      Halves(p, j);
      BlockRowDot(w, j, p - j, v);
      RingedAt(p, v, p);
      RingedAt(p, v, j);
      RingedAt(p, v, Half(p, j));
      assert !v[Half(p, j) - 1];
      assert !v[j - 1];
    }
  }

  // ---- Two blocks.

  ghost predicate TwoBlocks(w: nat, i: nat, j: nat, v: seq<bool>) {
    && OddPrime(w + 1) && i < j < w && |v| == w
    && KillsRows(w, Sum(BlaumRothBlock(w, i), BlaumRothBlock(w, j)), v)
  }

  ghost predicate ExtraValue(p: nat, j: nat, v: seq<bool>) {
    j > 0 && (Ringed(v)(j) != Ringed(v)(Half(p, j)))
  }

  lemma PairRow(w: nat, i: nat, j: nat, v: seq<bool>, l: nat)
    requires TwoBlocks(w, i, j, v) && 1 <= l <= w
    ensures Ringed(v)(l + j) ==
      ((Ringed(v)(l + i) != (l == w + 1 - i && ExtraValue(w + 1, i, v))) != (l == w + 1 - j && ExtraValue(w + 1, j, v)))
  {
    hide Dot, Half, Ringed, Prime;
    IsOdd(w + 1);
    SumDot(w, BlaumRothBlock(w, i), BlaumRothBlock(w, j), l - 1, v);
    BlockRowDot(w, i, l, v);
    BlockRowDot(w, j, l, v);
  }

  // The walk is at i after a steps; row l is the one that relates steps m and m + 1.
  ghost predicate Meets(p: nat, i: nat, j: nat, a: nat) {
    0 < p && i < j < p && a < p && Cong(p, (j - i) * a, i) && Unit(p, j - i)
  }

  lemma RowOfStep(p: nat, i: nat, j: nat, a: nat, m: nat) returns (l: nat)
    requires Meets(p, i, j, a) && 0 < m < p - 1 && m != a
    ensures 1 <= l < p && l != p - i && l != p - j
    ensures Cong(p, l + i, (j - i) * m) && Cong(p, l + j, (j - i) * (m + 1))
  {
    hide Unit, Cong;
    var s := j - i;
    l := (s * m - i) % p;
    CongResidue(p, s * m - i);
    CongShift(p, l, s * m - i, i);
    CongShift(p, l, s * m - i, j);
    assert s * (m + 1) == s * m + s;
    if l == 0 {
      Transitive(p, s * a, i, s * m);
      SameMultiple(p, s, a, m);
    }
    if l == p - i {
      ZeroStep(p, s, m);
    }
    if l == p - j {
      ZeroStep(p, s, m + 1);
    }
  }

  lemma Transitive(p: nat, a: int, b: int, c: int)
    requires 0 < p && Cong(p, a, b) && Cong(p, b, c)
    ensures Cong(p, a, c)
  {
  }

  lemma ZeroStep(p: nat, s: int, m: nat)
    requires 0 < m < p && Unit(p, s)
    ensures !Cong(p, p, s * m)
  {
    RemainderUnique(p, 1, 0);
    RemainderUnique(p, 0, 0);
    assert s * 0 == 0;
    if Cong(p, s * m, s * 0) {
      SameMultiple(p, s, m, 0);
    }
  }

  lemma OneStep(w: nat, i: nat, j: nat, v: seq<bool>, a: nat, m: nat)
    requires TwoBlocks(w, i, j, v) && Meets(w + 1, i, j, a) && 0 < m < w && m != a
    ensures Turns(Walk(w + 1, Ringed(v), 0, j - i), m, false)
  {
    hide Ringed, Prime, KillsRows, ExtraValue, Unit, Cong, Sum;
    var p, s := w + 1, j - i;
    var l := RowOfStep(p, i, j, a, m);
    PairRow(w, i, j, v, l);
    Moved(p, v, l + i, s * m);
    Moved(p, v, l + j, s * (m + 1));
  }

  // The walk comes to i before its last step, and at once only when i is 0.
  lemma MeetsInside(p: nat, i: nat, j: nat, a: nat)
    requires Meets(p, i, j, a)
    ensures a < p - 1 && (a == 0 <==> i == 0)
    ensures Cong(p, (j - i) * (a + 1), j)
  {
    hide Unit, Cong;
    var s := j - i;
    assert s * (a + 1) == s * a + s;
    CongShift(p, s * a, i, s);
    if a == p - 1 {
      Multiple(p, 0, s);
      assert s * p == 0 + p * s;
      Reverse(p, s * p, j);
      Transitive(p, j, s * p, 0);
      CongSmall(p, j, 0);
    }
    assert s * 0 == 0;
    if a == 0 {
      CongSmall(p, 0, i);
    } else if i == 0 {
      SameMultiple(p, s, a, 0);
    }
  }

  lemma Reverse(p: nat, a: int, b: int)
    requires 0 < p && Cong(p, a, b)
    ensures Cong(p, b, a)
  {
  }

  // Half of what a steps reach is reached by half of a steps.
  lemma HalfWay(p: nat, s: int, a: nat, i: nat)
    requires OddPrime(p) && 0 < a < p && 0 < i < p && Cong(p, s * a, i)
    ensures Cong(p, s * Half(p, a), Half(p, i))
  {
    hide Unit, Cong, Half, Prime;
    IsOdd(p);
    var h, h' := Half(p, a), Half(p, i);
    Halves(p, a);
    Halves(p, i);
    CongMul(p, 2 * h, a, s);
    assert s * (2 * h) == 2 * (s * h);
    Transitive(p, 2 * (s * h), s * a, i);
    Reverse(p, 2 * h', i);
    Transitive(p, 2 * (s * h), i, 2 * h');
    StepIsUnit(p, 0, 2);
    Cancels(p, 2, s * h, h');
  }

  // What the two rows with two extra bits say.
  lemma ExtraRows(w: nat, i: nat, j: nat, v: seq<bool>, a: nat, U: seq<bool>)
    requires TwoBlocks(w, i, j, v) && Meets(w + 1, i, j, a) && a < w && (a == 0 <==> i == 0)
    requires Cong(w + 1, (j - i) * (a + 1), j)
    requires U == Walk(w + 1, Ringed(v), 0, j - i)
    ensures i > 0 ==> (U[1] != U[a]) == U[Half(w + 1, a)]
    ensures (U[w] != U[a + 1]) == U[Half(w + 1, a + 1)]
  {
    hide Ringed, Prime, KillsRows, Unit, Cong, Sum, Half, Walk;
    var p, s := w + 1, j - i;
    IsOdd(p);
    AtStep(p, v, s, a + 1, j, U);
    HalfWay(p, s, a + 1, j);
    Halves(p, a + 1);
    AtStep(p, v, s, Half(p, a + 1), Half(p, j), U);
    PairRow(w, i, j, v, p - j);
    RingedAt(p, v, p);
    LastStep(p, v, s, p - j + i, U);
    if i > 0 {
      AtStep(p, v, s, a, i, U);
      HalfWay(p, s, a, i);
      Halves(p, a);
      AtStep(p, v, s, Half(p, a), Half(p, i), U);
      PairRow(w, i, j, v, p - i);
      FirstStep(p, v, s, p - i + j, U);
    }
  }

  lemma AtStep(p: nat, v: seq<bool>, s: int, m: nat, n: int, U: seq<bool>)
    requires p == |v| + 1 && m < p && Cong(p, s * m, n) && U == Walk(p, Ringed(v), 0, s)
    ensures U[m] == Ringed(v)(n)
  {
    Moved(p, v, s * m, n);
  }

  lemma FirstStep(p: nat, v: seq<bool>, s: int, n: int, U: seq<bool>)
    requires p == |v| + 1 && p > 1 && n == s + p && U == Walk(p, Ringed(v), 0, s)
    ensures U[1] == Ringed(v)(n)
  {
    Multiple(p, s, 1);
    Moved(p, v, s + p * 1, s);
  }

  lemma LastStep(p: nat, v: seq<bool>, s: int, n: int, U: seq<bool>)
    requires p == |v| + 1 && n == p - s && U == Walk(p, Ringed(v), 0, s)
    ensures U[p - 1] == Ringed(v)(n)
  {
    Multiple(p, p - s, s - 1);
    assert s * (p - 1) == (p - s) + p * (s - 1);
    Moved(p, v, s * (p - 1), n);
  }

  // Two constant arcs and a zero on each.
  lemma ArcsAreZero(U: seq<bool>, p: nat, a: nat)
    requires p % 2 == 1 && |U| == p + 1 && a < p - 1 && !U[0]
    requires forall m | 0 < m < p - 1 && m != a :: Turns(U, m, false)
    requires a > 0 ==> (U[1] != U[a]) == U[Half(p, a)]
    requires (U[p - 1] != U[a + 1]) == U[Half(p, a + 1)]
    ensures forall m | 0 <= m < p :: !U[m]
  {
    Constant(U, a + 1, p - 1);
    if a > 0 {
      Constant(U, 1, a);
    }
  }

  lemma PairIsZero(w: nat, i: nat, j: nat, v: seq<bool>)
    requires TwoBlocks(w, i, j, v)
    ensures forall n | 0 <= n < w :: !v[n]
  {
    hide Ringed, Prime, KillsRows, Unit, Cong, Sum, Half, Turns;
    var p, s := w + 1, j - i;
    IsOdd(p);
    StepIsUnit(p, i, j);
    var U := Walk(p, Ringed(v), 0, s);
    var a := Reaches(p, s, i);
    MeetsInside(p, i, j, a);
    forall m | 0 < m < p - 1 && m != a
      ensures Turns(U, m, false)
    {
      OneStep(w, i, j, v, a, m);
    }
    ExtraRows(w, i, j, v, a, U);
    RingedAt(p, v, 0);
    assert s * 0 == 0;
    ArcsAreZero(U, p, a);
    RingedPeriodic(v);
    forall n | 0 <= n < w
      ensures !v[n]
    {
      RingedAt(p, v, n + 1);
      var m := WalkReaches(p, Ringed(v), 0, s, n + 1);
    }
  }

  /** Any two lost devices are decodable. */
  lemma BlaumRothTwoErasures(k: nat, w: nat)
    requires OddPrime(w + 1) && k <= w
    ensures TwoErasures(w, k, BlaumRothBlocks(k, w))
  {
    hide Prime, Nonsingular, KillsRows, Dot, BlaumRothBlock, Sum;
    var blocks := BlaumRothBlocks(k, w);
    IsOdd(w + 1);
    forall j | 0 <= j < k
      ensures Nonsingular(F2, blocks[j], w)
    {
      forall v | |v| == w && KillsRows(w, blocks[j], v)
        ensures forall n | 0 <= n < w :: !v[n]
      {
        OneBlock(w, j, v);
      }
      OnlyZero(w, blocks[j]);
    }
    forall i, j | 0 <= i < j < k
      ensures IsMatrix(F2, Sum(blocks[i], blocks[j]), w, w)
      ensures Nonsingular(F2, Sum(blocks[i], blocks[j]), w)
    {
      SumIsMatrix(w, blocks[i], blocks[j]);
      forall v | |v| == w && KillsRows(w, Sum(blocks[i], blocks[j]), v)
        ensures forall n | 0 <= n < w :: !v[n]
      {
        PairIsZero(w, i, j, v);
      }
      OnlyZero(w, Sum(blocks[i], blocks[j]));
    }
  }

  /** Block 0 is the identity. */
  lemma FirstBlock(w: nat)
    ensures BlaumRothBlock(w, 0) == Identity(F2, w)
  {
    assert forall y | 0 <= y < w :: BlaumRothBlock(w, 0)[y] == Identity(F2, w)[y];
  }

  /** The premises of scheduled decoding hold for every loss of at most two devices. */
  lemma BlaumRothDecodable(k: nat, w: nat, cols: nat, e: seq<bool>)
    requires OddPrime(w + 1) && 0 < k <= w && Column(w, k, 0, cols)
    requires |e| == k + 2 && Recoverable(e, k)
    ensures Decodable(w, k, cols, RaidSixMatrix(w, cols, BlaumRothBlocks(k, w)), e)
    ensures NonzeroRows(w, k, cols, RaidSixMatrix(w, cols, BlaumRothBlocks(k, w)), e)
  {
    BlaumRothTwoErasures(k, w);
    RaidSixDecodable(k, w, cols, BlaumRothBlocks(k, w), e);
    FirstBlock(w);
    RaidSixNonzero(k, w, cols, BlaumRothBlocks(k, w), e);
  }
}

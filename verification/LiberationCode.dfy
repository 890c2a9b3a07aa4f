/** Why any two lost devices of a Liberation code are decodable. The sum of blocks i and j, applied to a kernel
    vector v, relates v at residues one step j - i apart. Walking in steps of j - i visits every residue; the
    two extra bits cut the walk into two arcs, and the columns they hold lie on different arcs. */
module LiberationCode {
  import opened Fields
  import opened LinearAlgebra
  import opened Encoders
  import opened Erasures
  import opened ScheduledDecoding
  import opened Residues
  import opened RaidSix
  import opened RaidSixKernels
  import opened Liberation

  ghost function Wrapped(v: seq<bool>): int -> bool
    requires |v| > 0
  {
    n => v[n % |v|]
  }

  lemma WrappedPeriodic(v: seq<bool>)
    requires |v| > 0
    ensures Periodic(|v|, Wrapped(v))
  {
  }

  lemma Below(w: nat, v: seq<bool>, n: nat)
    requires |v| == w && n < w
    ensures Wrapped(v)(n) == v[n]
  {
    RemainderUnique(w, 0, n);
  }

  lemma NeighboursDiffer(w: nat, n: int)
    requires w >= 2
    ensures !Cong(w, n, n - 1)
  {
    if Cong(w, n, n - 1) {
      var k := CongWitness(w, n, n - 1);
      assert w * k == 1;
      if k > 0 {
        Positive(w, k);
      }
    }
  }

  lemma BlockRowDot(w: nat, j: nat, y: nat, v: seq<bool>)
    requires w >= 2 && y < w && |v| == w
    ensures Dot(F2, LiberationBlock(w, j)[y], v) ==
      (Wrapped(v)(j + y) != (j > 0 && y == ExtraRow(w, j) && Wrapped(v)(y + j - 1)))
  {
    hide ExtraRow, Dot;
    var row := LiberationBlock(w, j)[y];
    if j > 0 && y == ExtraRow(w, j) {
      NeighboursDiffer(w, j + y);
      TwoOnes(row, (j + y) % w, (y + j - 1) % w, v);
    } else {
      OneOne(row, (j + y) % w, v);
    }
  }

  // ---- One block.

  lemma OneBlock(w: nat, j: nat, v: seq<bool>)
    requires w >= 2 && j < w && |v| == w && KillsRows(w, LiberationBlock(w, j), v)
    ensures forall n | 0 <= n < w :: !v[n]
  {
    hide ExtraRow, Dot, Wrapped;
    var e := ExtraRow(w, j);
    WrappedPeriodic(v);
    forall n | 0 <= n < w && !Cong(w, n, e + j)
      ensures !Wrapped(v)(n)
    {
      RowThrough(w, j, n, e, v);
    }
    NeighboursDiffer(w, e + j);
    CongResidue(w, e + j - 1);
    CongResidue(w, e + j);
    assert !Cong(w, (e + j - 1) % w, e + j);
    assert !Wrapped(v)(e + j - 1);
    BlockRowDot(w, j, e, v);
    forall n | 0 <= n < w
      ensures !v[n]
    {
      Below(w, v, n);
      if Cong(w, n, e + j) {
        assert Wrapped(v)(n) == Wrapped(v)(j + e);
      }
    }
  }

  // Row n - j has its plain bit in column n.
  lemma RowThrough(w: nat, j: nat, n: nat, e: nat, v: seq<bool>)
    requires w >= 2 && j < w && n < w && |v| == w && KillsRows(w, LiberationBlock(w, j), v) && e == ExtraRow(w, j)
    requires !Cong(w, n, e + j) && Periodic(w, Wrapped(v))
    ensures !Wrapped(v)(n)
  {
    hide ExtraRow, Dot, Wrapped;
    var y := (n - j) % w;
    CongResidue(w, n - j);
    CongShift(w, y, n - j, j);
    assert Cong(w, y + j, n);
    BlockRowDot(w, j, y, v);
    assert Wrapped(v)(j + y) == Wrapped(v)(n);
  }

  // ---- Two blocks.

  ghost predicate TwoBlocks(w: nat, i: nat, j: nat, v: seq<bool>) {
    && Prime(w) && w % 2 == 1 && i < j < w && |v| == w
    && KillsRows(w, Sum(LiberationBlock(w, i), LiberationBlock(w, j)), v)
  }

  // The column of the extra bit of block j, as the kernel vector sees it.
  ghost predicate ExtraValue(w: nat, j: nat, v: seq<bool>)
    requires 0 < w && |v| == w
  {
    j > 0 && Wrapped(v)(ExtraRow(w, j) + j - 1)
  }

  lemma PairRow(w: nat, i: nat, j: nat, v: seq<bool>, r: nat)
    requires TwoBlocks(w, i, j, v) && r < w
    ensures Wrapped(v)(j + r) ==
      ((Wrapped(v)(i + r) != (r == ExtraRow(w, i) && ExtraValue(w, i, v))) !=
       (r == ExtraRow(w, j) && ExtraValue(w, j, v)))
  {
    hide ExtraRow, Dot, Wrapped, Prime;
    assert w >= 2 by { PrimeBig(w); }
    SumDot(w, LiberationBlock(w, i), LiberationBlock(w, j), r, v);
    BlockRowDot(w, i, r, v);
    BlockRowDot(w, j, r, v);
  }

  lemma PrimeBig(w: nat)
    requires Prime(w)
    ensures w >= 2
  {
  }

  // The extra rows of i and j are (w - 1) / 2 steps apart.
  lemma ExtraRows(w: nat, i: nat, j: nat)
    requires 0 < w
    ensures Cong(w, ExtraRow(w, j), ExtraRow(w, i) + (j - i) * ((w - 1) / 2))
  {
    var h := (w - 1) / 2;
    CongResidue(w, i * h);
    CongResidue(w, j * h);
    CongShift(w, ExtraRow(w, i), i * h, (j - i) * h);
    assert i * h + (j - i) * h == j * h;
  }

  // One step of the walk from i + ExtraRow(i).
  lemma WalkSteps(p: nat, v: int -> bool, base: int, s: int, m: nat, q: int)
    requires m < p && q == s * m
    ensures Walk(p, v, base, s)[m] == v(base + q) && Walk(p, v, base, s)[m + 1] == v(base + q + s)
  {
    assert s * (m + 1) == s * m + s;
  }

  // Rows i and j of the walk at step m.
  lemma StepEnds(w: nat, i: nat, j: nat, v: seq<bool>, m: nat, r: nat)
    requires TwoBlocks(w, i, j, v) && m < w && r < w && Cong(w, r, ExtraRow(w, i) + (j - i) * m)
    ensures Walk(w, Wrapped(v), i + ExtraRow(w, i), j - i)[m] == Wrapped(v)(i + r)
    ensures Walk(w, Wrapped(v), i + ExtraRow(w, i), j - i)[m + 1] == Wrapped(v)(j + r)
  {
    hide ExtraRow, Wrapped, Prime, KillsRows, Cong, Sum, Walk;
    PrimeBig(w);
    WrappedPeriodic(v);
    WalkEnds(w, Wrapped(v), i, j, ExtraRow(w, i), j - i, m, r, (j - i) * m);
  }

  lemma WalkEnds(w: nat, v: int -> bool, i: nat, j: nat, e: nat, s: int, m: nat, r: nat, q: int)
    requires 0 < w && Periodic(w, v) && m < w && s == j - i && q == s * m && Cong(w, r, e + q)
    ensures Walk(w, v, i + e, s)[m] == v(i + r) && Walk(w, v, i + e, s)[m + 1] == v(j + r)
  {
    hide Walk, Cong, Periodic;
    CongShift(w, r, e + q, i);
    CongShift(w, r, e + q, j);
    Moved(w, v, r + i, e + q + i);
    Moved(w, v, r + j, e + q + j);
    WalkSteps(w, v, i + e, s, m, q);
  }

  // The extra bits are on the first and the middle step.
  lemma StepExtras(w: nat, i: nat, j: nat, v: seq<bool>, m: nat, r: nat)
    requires TwoBlocks(w, i, j, v) && m < w && r < w && Cong(w, r, ExtraRow(w, i) + (j - i) * m)
    ensures r == ExtraRow(w, i) <==> m == 0
    ensures r == ExtraRow(w, j) <==> m == (w - 1) / 2
  {
    hide ExtraRow, Prime, KillsRows, Unit, Cong, Sum;
    var s, e, f, h := j - i, ExtraRow(w, i), ExtraRow(w, j), (w - 1) / 2;
    PrimeBig(w);
    StepIsUnit(w, i, j);
    CongSelf(w, e, s);
    AtMultiple(w, s, e, e, m, 0, r);
    ExtraRows(w, i, j);
    AtMultiple(w, s, e, f, m, h, r);
  }

  lemma CongSelf(w: nat, e: int, s: int)
    requires w > 0
    ensures Cong(w, e, e + s * 0)
  {
  }

  lemma OneStep(w: nat, i: nat, j: nat, v: seq<bool>, m: nat)
    requires TwoBlocks(w, i, j, v) && m < w
    ensures Turns(Walk(w, Wrapped(v), i + ExtraRow(w, i), j - i), m,
                  (m == 0 && ExtraValue(w, i, v)) != (m == (w - 1) / 2 && ExtraValue(w, j, v)))
  {
    hide ExtraRow, Wrapped, Prime, KillsRows, ExtraValue, Cong, Sum;
    PrimeBig(w);
    var r := (ExtraRow(w, i) + (j - i) * m) % w;
    CongResidue(w, ExtraRow(w, i) + (j - i) * m);
    PairRow(w, i, j, v, r);
    StepEnds(w, i, j, v, m, r);
    StepExtras(w, i, j, v, m, r);
  }

  lemma Moved(w: nat, v: int -> bool, a: int, b: int)
    requires 0 < w && Periodic(w, v) && Cong(w, a, b)
    ensures v(a) == v(b)
  {
  }

  // The walk is in row f after n steps, and at no other time.
  lemma AtMultiple(w: nat, s: int, e: nat, f: nat, m: nat, n: nat, r: nat)
    requires 0 < w && Unit(w, s) && m < w && n < w && e < w && f < w && r < w
    requires Cong(w, r, e + s * m) && Cong(w, f, e + s * n)
    ensures r == f <==> m == n
  {
    SameMultiple(w, s, m, n);
    if r == f {
      CongShift(w, r, e + s * m, e);
      CongShift(w, f, e + s * n, e);
      assert Cong(w, s * m, s * n);
    } else if m == n {
      CongSmall(w, r, f);
    }
  }

  ghost predicate ArcTurn(U: seq<bool>, h: nat, t: bool, t': bool, m: nat) {
    Turns(U, m, (m == 0 && t) != (m == h && t'))
  }

  // The two arcs.
  lemma Arcs(U: seq<bool>, w: nat, h: nat, t: bool, t': bool)
    requires |U| == w + 1 && 0 < h < w && U[w] == U[0]
    requires forall m | 0 <= m < w :: ArcTurn(U, h, t, t', m)
    ensures t == t'
    ensures forall m | 1 <= m <= h :: U[m] == (U[0] != t)
    ensures forall m | h < m <= w :: U[m] == U[0]
  {
    assert ArcTurn(U, h, t, t', 0) && ArcTurn(U, h, t, t', h);
    forall m | 1 <= m < w && m != h
      ensures Turns(U, m, false)
    {
      assert ArcTurn(U, h, t, t', m);
    }
    Constant(U, 1, h);
    Constant(U, h + 1, w);
  }

  // The column of j's extra bit is h + 1 steps past the column of i's, for h = (w - 1) / 2.
  lemma ExtraColumns(w: nat, i: nat, j: nat, h: nat, mu: nat, e: nat, f: nat)
    requires 0 < w && Cong(w, (j - i) * mu, -1) && Cong(w, f, e + (j - i) * h)
    ensures Cong(w, i + e + (j - i) * mu, i + e - 1)
    ensures Cong(w, i + e + (j - i) * (mu + h + 1), j + f - 1)
  {
    hide Cong;
    var s := j - i;
    assert s * (mu + h + 1) == s * mu + s * h + s;
    AddUp(w, i, j, s * mu, s * h, e, f);
  }

  lemma AddUp(w: nat, i: nat, j: nat, a: int, b: int, e: nat, f: nat)
    requires 0 < w && Cong(w, a, -1) && Cong(w, f, e + b)
    ensures Cong(w, i + e + a, i + e - 1)
    ensures Cong(w, i + e + (a + b + (j - i)), j + f - 1)
  {
    CongShift(w, a, -1, i + e);
    CongShift(w, a, -1, j);
    assert Cong(w, e + b, f);
    CongAdd(w, a + j, -1 + j, e + b, f);
  }

  ghost function PairWalk(w: nat, i: nat, j: nat, v: seq<bool>): (U: seq<bool>)
    requires 0 < w && |v| == w && i < j
    ensures |U| == w + 1
  {
    Walk(w, Wrapped(v), i + ExtraRow(w, i), j - i)
  }

  lemma PairArcs(w: nat, i: nat, j: nat, h: nat, v: seq<bool>, t: bool, t': bool, U: seq<bool>)
    requires TwoBlocks(w, i, j, v) && h == (w - 1) / 2 && U == PairWalk(w, i, j, v)
    requires t == ExtraValue(w, i, v) && t' == ExtraValue(w, j, v)
    ensures 0 < h && w == 2 * h + 1
    ensures t == t'
    ensures forall m | 1 <= m <= h :: U[m] == (U[0] != t)
    ensures forall m | h < m <= w :: U[m] == U[0]
  {
    hide ExtraRow, Wrapped, Prime, KillsRows, Walk, ExtraValue, Sum, Turns;
    PrimeBig(w);
    WrappedPeriodic(v);
    WalkReturns(w, Wrapped(v), i + ExtraRow(w, i), j - i);
    forall m | 0 <= m < w
      ensures ArcTurn(U, h, t, t', m)
    {
      OneStep(w, i, j, v, m);
    }
    Arcs(U, w, h, t, t');
  }

  // Where the walk meets the columns of the extra bits.
  lemma PairColumns(w: nat, i: nat, j: nat, h: nat, v: seq<bool>, U: seq<bool>) returns (mu: nat)
    requires TwoBlocks(w, i, j, v) && h == (w - 1) / 2 && U == PairWalk(w, i, j, v)
    ensures 0 < mu < w
    ensures i > 0 ==> ExtraValue(w, i, v) == U[mu]
    ensures ExtraValue(w, j, v) == U[if mu + h + 1 <= w then mu + h + 1 else mu + h + 1 - w]
  {
    hide ExtraRow, Wrapped, Prime, KillsRows, Cong, Sum, Unit, ExtraValue, PairWalk;
    PrimeBig(w);
    StepIsUnit(w, i, j);
    mu := Reaches(w, j - i, -1);
    MuPositive(w, j - i, mu);
    ExtraRows(w, i, j);
    ExtraColumns(w, i, j, h, mu, ExtraRow(w, i), ExtraRow(w, j));
    ExtraMet(w, i, j, v, U, mu, i);
    ExtraMet(w, i, j, v, U, mu + h + 1, j);
  }

  lemma ExtraMet(w: nat, i: nat, j: nat, v: seq<bool>, U: seq<bool>, m: nat, b: nat)
    requires 0 < w && |v| == w && i < j && m <= 2 * w && U == PairWalk(w, i, j, v)
    requires Cong(w, i + ExtraRow(w, i) + (j - i) * m, b + ExtraRow(w, b) - 1)
    ensures b > 0 ==> ExtraValue(w, b, v) == U[if m <= w then m else m - w]
  {
    hide ExtraRow, Wrapped, Cong;
    WrappedPeriodic(v);
    LaterColumn(w, Wrapped(v), i + ExtraRow(w, i), j - i, m, b + ExtraRow(w, b) - 1);
  }

  // The kernel of the sum of two blocks.
  lemma PairIsZero(w: nat, i: nat, j: nat, v: seq<bool>)
    requires TwoBlocks(w, i, j, v)
    ensures forall n | 0 <= n < w :: !v[n]
  {
    hide ExtraRow, Wrapped, Prime, KillsRows, Unit, Cong, Sum, Walk;
    PrimeBig(w);
    var h, U := (w - 1) / 2, PairWalk(w, i, j, v);
    PairArcs(w, i, j, h, v, ExtraValue(w, i, v), ExtraValue(w, j, v), U);
    var mu := PairColumns(w, i, j, h, v, U);
    assert forall m | 0 <= m < w :: !U[m];
    WrappedPeriodic(v);
    StepIsUnit(w, i, j);
    forall n | 0 <= n < w
      ensures !v[n]
    {
      Below(w, v, n);
      var m := WalkReaches(w, Wrapped(v), i + ExtraRow(w, i), j - i, n);
    }
  }

  lemma MuPositive(w: nat, s: int, mu: nat)
    requires w >= 2 && Cong(w, s * mu, -1)
    ensures mu > 0
  {
    if mu == 0 {
      assert s * mu == 0;
      NeighboursDiffer(w, 0);
    }
  }

  // Going on past the end of the walk starts it again.
  lemma LaterColumn(w: nat, v: int -> bool, A: int, s: int, m: nat, n: int)
    requires 0 < w && Periodic(w, v) && m <= 2 * w && Cong(w, A + s * m, n)
    ensures v(n) == Walk(w, v, A, s)[if m <= w then m else m - w]
  {
    hide Cong;
    Moved(w, v, A + s * m, n);
    if m > w {
      Multiple(w, A + s * (m - w), s);
      assert A + s * (m - w) + w * s == A + s * m;
      Moved(w, v, A + s * m, A + s * (m - w));
    }
  }

  /** Any two lost devices are decodable. */
  lemma LiberationTwoErasures(k: nat, w: nat)
    requires Prime(w) && w % 2 == 1 && k <= w
    ensures TwoErasures(w, k, LiberationBlocks(k, w))
  {
    hide Prime, Nonsingular, KillsRows, Dot, LiberationBlock, Sum;
    var blocks := LiberationBlocks(k, w);
    assert w >= 2 by { PrimeBig(w); }
    forall j | 0 <= j < k
      ensures Nonsingular(F2, blocks[j], w)
    {
      forall v | |v| == w && KillsRows(w, blocks[j], v)
        ensures forall n | 0 <= n < w :: !v[n]
      {
        OneBlock(w, j, v);
      }
      OnlyZero(w, blocks[j]);
    }
    forall i, j | 0 <= i < j < k
      ensures IsMatrix(F2, Sum(blocks[i], blocks[j]), w, w)
      ensures Nonsingular(F2, Sum(blocks[i], blocks[j]), w)
    {
      SumIsMatrix(w, blocks[i], blocks[j]);
      forall v | |v| == w && KillsRows(w, Sum(blocks[i], blocks[j]), v)
        ensures forall n | 0 <= n < w :: !v[n]
      {
        PairIsZero(w, i, j, v);
      }
      OnlyZero(w, Sum(blocks[i], blocks[j]));
    }
  }

  /** Block 0 is the identity. */
  lemma FirstBlock(w: nat)
    requires 0 < w
    ensures LiberationBlock(w, 0) == Identity(F2, w)
  {
    forall y | 0 <= y < w
      ensures LiberationBlock(w, 0)[y] == Identity(F2, w)[y]
    {
      RemainderUnique(w, 0, y);
    }
  }

  /** The premises of scheduled decoding hold for every loss of at most two devices. */
  lemma LiberationDecodable(k: nat, w: nat, cols: nat, e: seq<bool>)
    requires Prime(w) && w % 2 == 1 && 0 < k <= w && Column(w, k, 0, cols)
    requires |e| == k + 2 && Recoverable(e, k)
    ensures Decodable(w, k, cols, RaidSixMatrix(w, cols, LiberationBlocks(k, w)), e)
    ensures NonzeroRows(w, k, cols, RaidSixMatrix(w, cols, LiberationBlocks(k, w)), e)
  {
    LiberationTwoErasures(k, w);
    RaidSixDecodable(k, w, cols, LiberationBlocks(k, w), e);
    FirstBlock(w);
    RaidSixNonzero(k, w, cols, LiberationBlocks(k, w), e);
  }
}

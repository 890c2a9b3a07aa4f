/** RAID-6 bitmatrices: a row of identities above a row of blocks. When every block and every sum of two
    blocks is nonsingular, any two lost devices can be decoded. */
module RaidSix {
  import opened Arithmetic
  import opened Fields
  import opened LinearAlgebra
  import opened Schedules
  import opened Erasures
  import opened DecodingTheory
  import opened Encoders
  import opened ScheduledDecoding

  ghost predicate IsBlocks(w: nat, k: nat, blocks: seq<seq<seq<bool>>>) {
    |blocks| == k && forall j | 0 <= j < k :: IsMatrix(F2, blocks[j], w, w)
  }

  ghost function RaidSixMatrix(w: nat, cols: nat, blocks: seq<seq<seq<bool>>>): (B: seq<seq<bool>>)
    requires 0 < w
    ensures IsBitmatrix(B, 2 * w, cols)
  {
    seq(2 * w, r requires 0 <= r < 2 * w => seq(cols, c requires 0 <= c < cols => Entry(w, blocks, r, c)))
  }

  ghost predicate Entry(w: nat, blocks: seq<seq<seq<bool>>>, r: nat, c: nat)
    requires 0 < w
  {
    if r < w then c % w == r
    else c / w < |blocks| && r - w < |blocks[c / w]| && c % w < |blocks[c / w][r - w]| && blocks[c / w][r - w][c % w]
  }

  ghost function Sum(X: seq<seq<bool>>, Y: seq<seq<bool>>): (Z: seq<seq<bool>>)
    requires |X| == |Y| && forall r | 0 <= r < |X| :: |X[r]| == |Y[r]|
    ensures |Z| == |X|
  {
    seq(|X|, r requires 0 <= r < |X| => AddScaled(F2, X[r], true, Y[r]))
  }

  /** The condition of the RAID-6 codes. */
  ghost predicate TwoErasures(w: nat, k: nat, blocks: seq<seq<seq<bool>>>)
    requires IsBlocks(w, k, blocks)
  {
    && (forall j | 0 <= j < k :: Nonsingular(F2, blocks[j], w))
    && (forall i, j | 0 <= i < j < k :: Nonsingular(F2, Sum(blocks[i], blocks[j]), w))
  }

  // ---- Products with vectors that are zero outside one or two blocks.

  ghost function Part(x: seq<bool>, first: nat, w: nat): (v: seq<bool>)
    requires first + w <= |x|
    ensures |v| == w
  {
    x[first..first + w]
  }

  lemma DotShift(row: seq<bool>, x: seq<bool>, first: nat, w: nat, n: nat)
    requires |row| == |x| && n <= w && first + w <= |x|
    ensures DotTo(F2, row, x, first + n) ==
      (DotTo(F2, row, x, first) != DotTo(F2, Part(row, first, w), Part(x, first, w), n))
  {
    if n > 0 {
      DotShift(row, x, first, w, n - 1);
      BitDotStep(row, x, first + n);
      BitDotStep(Part(row, first, w), Part(x, first, w), n);
    } else {
      BitDotStep(Part(row, first, w), Part(x, first, w), 0);
    }
  }

  lemma DotSkip(row: seq<bool>, x: seq<bool>, m: nat, n: nat)
    requires |row| == |x| && m <= n <= |x| && forall c | m <= c < n :: !x[c]
    ensures DotTo(F2, row, x, n) == DotTo(F2, row, x, m)
  {
    if m < n {
      DotSkip(row, x, m, n - 1);
      BitDotStep(row, x, n);
    }
  }

  // The row of block j that matrix row r uses.
  ghost function BlockRow(w: nat, blocks: seq<seq<seq<bool>>>, r: nat, j: nat): seq<bool>
    requires j < |blocks| && IsMatrix(F2, blocks[j], w, w) && r < 2 * w
  {
    if r < w then UnitVec(F2, w, r) else blocks[j][r - w]
  }

  lemma RowPart(w: nat, k: nat, cols: nat, blocks: seq<seq<seq<bool>>>, r: nat, j: nat, first: nat)
    requires 0 < w && IsBlocks(w, k, blocks) && Column(w, k, 0, cols) && j < k && Column(w, j, 0, first) && r < 2 * w
    ensures first + w <= cols
    ensures Part(RaidSixMatrix(w, cols, blocks)[r], first, w) == BlockRow(w, blocks, r, j)
  {
    MulNext(j, k, w);
    var row := RaidSixMatrix(w, cols, blocks)[r];
    forall t | 0 <= t < w
      ensures row[first + t] == BlockRow(w, blocks, r, j)[t]
    {
      DivModUnique(w, j, t);
    }
  }

  ghost predicate ZeroOutside(x: seq<bool>, first: nat, first': nat, w: nat) {
    forall c | 0 <= c < |x| && !(first <= c < first + w) && !(first' <= c < first' + w) :: !x[c]
  }

  lemma DotOneBlock(w: nat, k: nat, cols: nat, blocks: seq<seq<seq<bool>>>, r: nat, j: nat, first: nat, x: seq<bool>)
    requires 0 < w && IsBlocks(w, k, blocks) && Column(w, k, 0, cols) && j < k && Column(w, j, 0, first) && r < 2 * w
    requires |x| == cols && first + w <= cols && ZeroOutside(x, first, first, w)
    ensures Dot(F2, RaidSixMatrix(w, cols, blocks)[r], x) == Dot(F2, BlockRow(w, blocks, r, j), Part(x, first, w))
  {
    hide RaidSixMatrix, Column, DotTo;
    var row := RaidSixMatrix(w, cols, blocks)[r];
    RowPart(w, k, cols, blocks, r, j, first);
    BitDotStep(row, x, 0);
    DotSkip(row, x, 0, first);
    DotShift(row, x, first, w, w);
    DotSkip(row, x, first + w, cols);
  }

  lemma DotTwoBlocks(w: nat, k: nat, cols: nat, blocks: seq<seq<seq<bool>>>, r: nat, i: nat, first: nat, j: nat,
                     first': nat, x: seq<bool>)
    requires 0 < w && IsBlocks(w, k, blocks) && Column(w, k, 0, cols) && i < j < k && Column(w, i, 0, first)
    requires Column(w, j, 0, first') && r < 2 * w
    requires |x| == cols && first + w <= first' && first' + w <= cols && ZeroOutside(x, first, first', w)
    ensures Dot(F2, RaidSixMatrix(w, cols, blocks)[r], x) ==
      (Dot(F2, BlockRow(w, blocks, r, i), Part(x, first, w)) != Dot(F2, BlockRow(w, blocks, r, j), Part(x, first', w)))
  {
    hide RaidSixMatrix, Column, DotTo;
    var row := RaidSixMatrix(w, cols, blocks)[r];
    RowPart(w, k, cols, blocks, r, i, first);
    RowPart(w, k, cols, blocks, r, j, first');
    BitDotStep(row, x, 0);
    DotSkip(row, x, 0, first);
    DotShift(row, x, first, w, w);
    DotSkip(row, x, first + w, first');
    DotShift(row, x, first', w, w);
    DotSkip(row, x, first' + w, cols);
  }

  // ---- The survivors of at most two losses determine the data.

  // Row q of the survivor matrix sends x to zero.
  ghost predicate Kernel(w: nat, cols: nat, B: seq<seq<bool>>, ids: seq<nat>, x: seq<bool>)
    requires 0 < w && IsBitmatrix(B, |B|, cols)
  {
    |x| == cols && forall q | 0 <= q < cols :: !Dot(F2, SurvivorMatrix(w, cols, B, ids)[q], x)
  }

  lemma KernelUnit(k: nat, w: nat, cols: nat, B: seq<seq<bool>>, ids: seq<nat>, x: seq<bool>, i: nat, y: nat, q: nat)
    requires 0 < w && Shape(k, 2, w, cols, |B|) && IsBitmatrix(B, |B|, cols) && i < k <= |ids| && ids[i] == i && y < w
    requires Column(w, i, y, q) && Kernel(w, cols, B, ids, x)
    ensures q < cols && !x[q]
  {
    F2Valid();
    SurvivorRow(k, 2, w, cols, B, ids, i, y, q, 0);
    DotUnit(F2, x, q);
  }

  lemma KernelCoding(k: nat, w: nat, cols: nat, B: seq<seq<bool>>, ids: seq<nat>, x: seq<bool>, i: nat, y: nat, q: nat,
                     first: nat)
    requires 0 < w && Shape(k, 2, w, cols, |B|) && IsBitmatrix(B, |B|, cols) && i < k <= |ids| && k <= ids[i] < k + 2
    requires y < w
    requires Column(w, i, y, q) && Column(w, ids[i] - k, 0, first) && Kernel(w, cols, B, ids, x)
    ensures first + y < |B| && !Dot(F2, B[first + y], x)
  {
    SurvivorRow(k, 2, w, cols, B, ids, i, y, q, first);
  }

  // Outside the lost devices the vector is zero.
  lemma KernelZero(k: nat, w: nat, cols: nat, B: seq<seq<bool>>, ids: seq<nat>, x: seq<bool>, c: nat)
    requires 0 < w && Shape(k, 2, w, cols, |B|) && IsBitmatrix(B, |B|, cols) && k <= |ids| && Kernel(w, cols, B, ids, x)
    requires c < cols && c / w < k && ids[c / w] == c / w
    ensures !x[c]
  {
    ColumnOf(w, c);
    KernelUnit(k, w, cols, B, ids, x, c / w, c % w, c);
  }

  lemma ColumnOf(w: nat, c: nat)
    requires 0 < w
    ensures Column(w, c / w, c % w, c) && 0 <= c % w < w
  {
  }

  lemma BlockRange(w: nat, i: nat, first: nat, c: nat)
    requires 0 < w && Column(w, i, 0, first) && c / w == i
    ensures first <= c < first + w
  {
  }

  lemma OutsideIsZero(k: nat, w: nat, cols: nat, B: seq<seq<bool>>, ids: seq<nat>, x: seq<bool>, i: nat, first: nat,
                      j: nat, first': nat)
    requires 0 < w && Shape(k, 2, w, cols, |B|) && IsBitmatrix(B, |B|, cols) && k <= |ids| && Kernel(w, cols, B, ids, x)
    requires Column(w, i, 0, first) && Column(w, j, 0, first')
    requires forall d | 0 <= d < k && d != i && d != j :: ids[d] == d
    ensures ZeroOutside(x, first, first', w)
  {
    forall c | 0 <= c < cols && !(first <= c < first + w) && !(first' <= c < first' + w)
      ensures !x[c]
    {
      DataDevice(k, 2, w, cols, |B|, c);
      if c / w == i {
        BlockRange(w, i, first, c);
      } else if c / w == j {
        BlockRange(w, j, first', c);
      } else {
        KernelZero(k, w, cols, B, ids, x, c);
      }
    }
  }

  lemma KernelIsZero(A: seq<seq<bool>>, w: nat, v: seq<bool>)
    requires IsMatrix(F2, A, w, w) && Nonsingular(F2, A, w) && |v| == w
    requires forall y | 0 <= y < w :: !Dot(F2, A[y], v)
    ensures forall y | 0 <= y < w :: !v[y]
  {
    assert IsVec(F2, v, w);
    assert MatVec(F2, A, v) == ZeroVec(F2, w);
  }

  lemma PartsZero(x: seq<bool>, first: nat, first': nat, w: nat)
    requires first + w <= |x| && first' + w <= |x| && ZeroOutside(x, first, first', w)
    requires forall y | 0 <= y < w :: !Part(x, first, w)[y] && !Part(x, first', w)[y]
    ensures x == ZeroVec(F2, |x|)
  {
    forall c | 0 <= c < |x|
      ensures !x[c]
    {
      if first <= c < first + w {
        assert x[c] == Part(x, first, w)[c - first];
      } else if first' <= c < first' + w {
        assert x[c] == Part(x, first', w)[c - first'];
      }
    }
  }

  // The lost devices, and what the surviving rows say about x.
  ghost predicate Losses(w: nat, k: nat, cols: nat, blocks: seq<seq<seq<bool>>>, x: seq<bool>, i: nat, first: nat,
                         j: nat, first': nat)
  {
    && 0 < w && IsBlocks(w, k, blocks) && TwoErasures(w, k, blocks) && Column(w, k, 0, cols)
    && i <= j < k && Column(w, i, 0, first) && Column(w, j, 0, first') && first + w <= cols && first' + w <= cols
    && (i < j ==> first + w <= first')
    && |x| == cols && ZeroOutside(x, first, first', w)
  }

  // One lost data device, standing in by the coding device whose rows start at r.
  lemma OneLost(w: nat, k: nat, cols: nat, blocks: seq<seq<seq<bool>>>, x: seq<bool>, i: nat, first: nat, r: nat)
    requires Losses(w, k, cols, blocks, x, i, first, i, first) && (r == 0 || r == w)
    requires forall q | r <= q < r + w :: !Dot(F2, RaidSixMatrix(w, cols, blocks)[q], x)
    ensures x == ZeroVec(F2, cols)
  {
    hide RaidSixMatrix, Column, Dot, DotTo, ZeroOutside, Part, Nonsingular;
    F2Valid();
    var v := Part(x, first, w);
    if r == 0 {
      forall y | 0 <= y < w
        ensures !v[y]
      {
        DotOneBlock(w, k, cols, blocks, y, i, first, x);
        DotUnit(F2, v, y);
      }
    } else {
      forall y | 0 <= y < w
        ensures !Dot(F2, blocks[i][y], v)
      {
        DotOneBlock(w, k, cols, blocks, w + y, i, first, x);
      }
      KernelIsZero(blocks[i], w, v);
    }
    PartsZero(x, first, first, w);
  }

  // Two lost data devices: the identities make their parts equal, ...
  lemma PartsEqual(w: nat, k: nat, cols: nat, blocks: seq<seq<seq<bool>>>, x: seq<bool>, i: nat, first: nat, j: nat,
                   first': nat)
    requires Losses(w, k, cols, blocks, x, i, first, j, first') && i < j
    requires forall y | 0 <= y < w :: !Dot(F2, RaidSixMatrix(w, cols, blocks)[y], x)
    ensures Part(x, first, w) == Part(x, first', w)
  {
    hide RaidSixMatrix, Column, Dot, DotTo, ZeroOutside, Part, TwoErasures;
    F2Valid();
    var u, v := Part(x, first, w), Part(x, first', w);
    forall y | 0 <= y < w
      ensures u[y] == v[y]
    {
      DotTwoBlocks(w, k, cols, blocks, y, i, first, j, first', x);
      DotUnit(F2, u, y);
      DotUnit(F2, v, y);
    }
  }

  // ... and the sum of the blocks makes them zero.
  lemma SumIsZero(w: nat, k: nat, cols: nat, blocks: seq<seq<seq<bool>>>, x: seq<bool>, i: nat, first: nat, j: nat,
                  first': nat)
    requires Losses(w, k, cols, blocks, x, i, first, j, first') && i < j
    requires Part(x, first, w) == Part(x, first', w)
    requires forall q | w <= q < 2 * w :: !Dot(F2, RaidSixMatrix(w, cols, blocks)[q], x)
    ensures forall y | 0 <= y < w :: !Part(x, first, w)[y]
  {
    hide RaidSixMatrix, Column, DotTo, ZeroOutside, Part, Nonsingular;
    F2Valid();
    var v := Part(x, first, w);
    var Z := Sum(blocks[i], blocks[j]);
    forall y | 0 <= y < w
      ensures !Dot(F2, Z[y], v)
    {
      DotTwoBlocks(w, k, cols, blocks, w + y, i, first, j, first', x);
      DotAddScaled(F2, blocks[i][y], true, blocks[j][y], v, w);
    }
    KernelIsZero(Z, w, v);
  }

  lemma TwoLost(w: nat, k: nat, cols: nat, blocks: seq<seq<seq<bool>>>, x: seq<bool>, i: nat, first: nat, j: nat,
                first': nat)
    requires Losses(w, k, cols, blocks, x, i, first, j, first') && i < j
    requires forall q | 0 <= q < 2 * w :: !Dot(F2, RaidSixMatrix(w, cols, blocks)[q], x)
    ensures x == ZeroVec(F2, cols)
  {
    hide RaidSixMatrix, Column, Dot, ZeroOutside, Part, TwoErasures;
    PartsEqual(w, k, cols, blocks, x, i, first, j, first');
    SumIsZero(w, k, cols, blocks, x, i, first, j, first');
    PartsZero(x, first, first', w);
  }

  // ---- Which devices stand in.

  // What the stand-ins of at most two lost data devices i <= j are.
  datatype Loss = NoLoss | OneLoss(i: nat) | TwoLosses(i: nat, j: nat)

  ghost predicate Describes(k: nat, ids: seq<nat>, loss: Loss) {
    && k <= |ids|
    && match loss
       case NoLoss => forall d | 0 <= d < k :: ids[d] == d
       case OneLoss(i) => i < k && k <= ids[i] < k + 2 && forall d | 0 <= d < k && d != i :: ids[d] == d
       case TwoLosses(i, j) =>
         i < j < k && ids[i] == k && ids[j] == k + 1 && forall d | 0 <= d < k && d != i && d != j :: ids[d] == d
  }

  lemma StandsFor(e: seq<bool>, k: nat, n: nat)
    requires Recoverable(e, k) && |e| == k + 2 && n < |Where(e, 0, k, true)|
    ensures n < |Where(e, k, k + 2, false)| && StandIn(e, k, Where(e, 0, k, true)[n]) == Where(e, k, k + 2, false)[n]
  {
    var lost := Where(e, 0, k, true);
    var i := lost[n];
    WhereOrdered(e, 0, k, true);
    WhereAppend(e, 0, i, k, true);
    FirstWhere(e, i, k, true);
    var before := |Where(e, 0, i, true)|;
    assert lost[before] == i;
    assert before == n;
  }

  lemma StandInOf(e: seq<bool>, k: nat, d: nat)
    requires Recoverable(e, k) && d < k
    ensures RowIds(e, k)[d] == StandIn(e, k, d)
    ensures d !in Where(e, 0, k, true) ==> RowIds(e, k)[d] == d
  {
    WhereOrdered(e, 0, k, true);
  }

  lemma LossOf(e: seq<bool>, k: nat) returns (loss: Loss)
    requires Recoverable(e, k) && |e| == k + 2
    ensures Describes(k, RowIds(e, k), loss)
  {
    hide Where, RowIds, StandIn;
    var lost, coding, ids := Where(e, 0, k, true), Where(e, k, k + 2, false), RowIds(e, k);
    WhereOrdered(e, 0, k, true);
    WhereCounts(e, k, k + 2);
    WhereOrdered(e, k, k + 2, false);
    forall d | 0 <= d < k
      ensures ids[d] == StandIn(e, k, d) && (d !in lost ==> ids[d] == d)
    {
      StandInOf(e, k, d);
    }
    if |lost| == 0 {
      loss := NoLoss;
    } else if |lost| == 1 {
      StandsFor(e, k, 0);
      loss := OneLoss(lost[0]);
    } else {
      StandsFor(e, k, 0);
      StandsFor(e, k, 1);
      assert coding[0] < coding[1] && |lost| == 2;
      loss := TwoLosses(lost[0], lost[1]);
    }
  }

  lemma Starts(w: nat, k: nat, cols: nat, i: nat) returns (first: nat)
    requires Column(w, k, 0, cols) && i < k
    ensures Column(w, i, 0, first) && first + w <= cols
  {
    first := i * w;
    MulNext(i, k, w);
  }

  lemma StartsApart(w: nat, i: nat, first: nat, j: nat, first': nat)
    requires Column(w, i, 0, first) && Column(w, j, 0, first') && i < j
    ensures first + w <= first'
  {
    MulNext(i, j, w);
  }

  lemma ShapeColumns(k: nat, w: nat, cols: nat)
    requires 0 < w && Column(w, k, 0, cols)
    ensures Shape(k, 2, w, cols, 2 * w)
    ensures Column(w, 0, 0, 0) && Column(w, 1, 0, w)
  {
  }

  // The rows of the coding device that stands in for device i send the kernel vector to zero.
  lemma CodingRows(k: nat, w: nat, cols: nat, blocks: seq<seq<seq<bool>>>, ids: seq<nat>, x: seq<bool>, i: nat, r: nat)
    requires 0 < w && Column(w, k, 0, cols) && i < k <= |ids| && k <= ids[i] < k + 2
    requires r == if ids[i] == k then 0 else w
    requires Kernel(w, cols, RaidSixMatrix(w, cols, blocks), ids, x)
    ensures forall q | r <= q < r + w :: !Dot(F2, RaidSixMatrix(w, cols, blocks)[q], x)
  {
    hide RaidSixMatrix, Kernel, Dot, Shape, Column;
    ShapeColumns(k, w, cols);
    KernelWidth(w, cols, RaidSixMatrix(w, cols, blocks), ids, x);
    var first := Starts(w, k, cols, i);
    forall q | r <= q < r + w
      ensures !Dot(F2, RaidSixMatrix(w, cols, blocks)[q], x)
    {
      ColumnMove(w, i, first, q - r);
      KernelCoding(k, w, cols, RaidSixMatrix(w, cols, blocks), ids, x, i, q - r, first + (q - r), r);
    }
  }

  lemma ColumnMove(w: nat, i: nat, first: nat, y: nat)
    requires Column(w, i, 0, first)
    ensures Column(w, i, y, first + y)
  {
  }

  lemma LossOutside(k: nat, w: nat, cols: nat, blocks: seq<seq<seq<bool>>>, ids: seq<nat>, x: seq<bool>, i: nat,
                    first: nat, j: nat, first': nat)
    requires 0 < w && IsBlocks(w, k, blocks) && TwoErasures(w, k, blocks) && Column(w, k, 0, cols) && k <= |ids|
    requires Kernel(w, cols, RaidSixMatrix(w, cols, blocks), ids, x)
    requires i <= j < k && Column(w, i, 0, first) && Column(w, j, 0, first') && first + w <= cols && first' + w <= cols
    requires forall d | 0 <= d < k && d != i && d != j :: ids[d] == d
    ensures Losses(w, k, cols, blocks, x, i, first, j, first')
  {
    hide RaidSixMatrix, Shape, Column, TwoErasures, ZeroOutside;
    ShapeColumns(k, w, cols);
    OutsideIsZero(k, w, cols, RaidSixMatrix(w, cols, blocks), ids, x, i, first, j, first');
    if i < j {
      StartsApart(w, i, first, j, first');
    }
  }

  lemma KernelWidth(w: nat, cols: nat, B: seq<seq<bool>>, ids: seq<nat>, x: seq<bool>)
    requires 0 < w && IsBitmatrix(B, |B|, cols) && Kernel(w, cols, B, ids, x)
    ensures |x| == cols
  {
  }

  lemma SurvivorsSolve(k: nat, w: nat, cols: nat, blocks: seq<seq<seq<bool>>>, ids: seq<nat>, loss: Loss, x: seq<bool>)
    requires 0 < w && IsBlocks(w, k, blocks) && TwoErasures(w, k, blocks) && Column(w, k, 0, cols)
    requires Describes(k, ids, loss) && Kernel(w, cols, RaidSixMatrix(w, cols, blocks), ids, x)
    ensures x == ZeroVec(F2, cols)
  {
    hide RaidSixMatrix, Kernel, Dot, Shape, Column, TwoErasures, Losses;
    KernelWidth(w, cols, RaidSixMatrix(w, cols, blocks), ids, x);
    match loss {
      case NoLoss =>
        ShapeColumns(k, w, cols);
        forall c | 0 <= c < cols
          ensures !x[c]
        {
          DataDevice(k, 2, w, cols, 2 * w, c);
          KernelZero(k, w, cols, RaidSixMatrix(w, cols, blocks), ids, x, c);
        }
      case OneLoss(i) =>
        var first := Starts(w, k, cols, i);
        var r := if ids[i] == k then 0 else w;
        CodingRows(k, w, cols, blocks, ids, x, i, r);
        LossOutside(k, w, cols, blocks, ids, x, i, first, i, first);
        OneLost(w, k, cols, blocks, x, i, first, r);
      case TwoLosses(i, j) =>
        var first := Starts(w, k, cols, i);
        var first' := Starts(w, k, cols, j);
        CodingRows(k, w, cols, blocks, ids, x, i, 0);
        CodingRows(k, w, cols, blocks, ids, x, j, w);
        LossOutside(k, w, cols, blocks, ids, x, i, first, j, first');
        TwoLost(w, k, cols, blocks, x, i, first, j, first');
    }
  }

  /** Whichever two devices are lost, the survivors determine the data. */
  lemma RaidSixDecodable(k: nat, w: nat, cols: nat, blocks: seq<seq<seq<bool>>>, e: seq<bool>)
    requires 0 < w && IsBlocks(w, k, blocks) && TwoErasures(w, k, blocks) && Column(w, k, 0, cols)
    requires |e| == k + 2 && Recoverable(e, k)
    ensures Decodable(w, k, cols, RaidSixMatrix(w, cols, blocks), e)
  {
    hide RaidSixMatrix, Column, Shape, TwoErasures, SurvivorMatrix, RowIds, Recoverable, Describes;
    var B, ids := RaidSixMatrix(w, cols, blocks), RowIds(e, k);
    var D := SurvivorMatrix(w, cols, B, ids);
    var loss := LossOf(e, k);
    forall x | IsVec(F2, x, cols) && MatVec(F2, D, x) == ZeroVec(F2, cols)
      ensures x == ZeroVec(F2, cols)
    {
      forall q | 0 <= q < cols
        ensures !Dot(F2, D[q], x)
      {
        assert MatVec(F2, D, x)[q] == ZeroVec(F2, cols)[q];
      }
      SurvivorsSolve(k, w, cols, blocks, ids, loss, x);
    }
  }

  lemma OneMakesOnes(row: seq<bool>, c: nat, n: nat)
    requires c < n <= |row| && row[c]
    ensures Ones(row, n) > 0
  {
    if n - 1 != c {
      OneMakesOnes(row, c, n - 1);
    }
  }

  lemma RowHasOne(k: nat, w: nat, cols: nat, blocks: seq<seq<seq<bool>>>, y: nat)
    requires 0 < w && 0 < k && IsBlocks(w, k, blocks) && w <= cols && blocks[0] == Identity(F2, w) && y < w
    ensures Ones(RaidSixMatrix(w, cols, blocks)[y], cols) > 0 && Ones(RaidSixMatrix(w, cols, blocks)[w + y], cols) > 0
  {
    DivModUnique(w, 0, y);
    OneMakesOnes(RaidSixMatrix(w, cols, blocks)[y], y, cols);
    OneMakesOnes(RaidSixMatrix(w, cols, blocks)[w + y], y, cols);
  }

  /** No coding packet is always zero, since block 0 is the identity. */
  lemma RaidSixNonzero(k: nat, w: nat, cols: nat, blocks: seq<seq<seq<bool>>>, e: seq<bool>)
    requires 0 < w && 0 < k && IsBlocks(w, k, blocks) && Column(w, k, 0, cols) && blocks[0] == Identity(F2, w)
    requires |e| == k + 2
    ensures NonzeroRows(w, k, cols, RaidSixMatrix(w, cols, blocks), e)
  {
    hide Shape, Column, Ones, Pos, Generator, RaidSixMatrix, Identity;
    var B := RaidSixMatrix(w, cols, blocks);
    ShapeColumns(k, w, cols);
    var first := Starts(w, k, cols, 0);
    forall d, y | k <= d < |e| && e[d] && 0 <= y < w
      ensures Ones(Generator(cols, B, Pos(w, d, y)), cols) > 0
    {
      RowHasOne(k, w, cols, blocks, y);
      GeneratorRow(k, 2, w, cols, B, d, y, if d == k then 0 else w);
    }
  }
}

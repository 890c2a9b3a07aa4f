/** The ones that cauchy_n_ones counts are the ones of the bitmatrix, and so the operations of its dumb schedule. */
module ExpandedOnes {
  import opened Arithmetic
  import opened LinearAlgebra
  import opened Schedules
  import opened SpanningPlans
  import opened Encoders
  import opened DecodingTheory
  import opened ScheduledDecoding
  import opened Galois
  import opened LogTables
  import opened CauchyOnes
  import opened CauchyImprove
  import opened Expansion

  // ---- Counting a rectangle of bits by rows and by columns.

  // The first a rows are at least n wide.
  ghost predicate Wide(M: seq<seq<bool>>, a: nat, n: nat) {
    a <= |M| && forall l | 0 <= l < a :: n <= |M[l]|
  }

  ghost function RowsOnes(M: seq<seq<bool>>, a: nat, n: nat): nat
    requires Wide(M, a, n)
  {
    if a == 0 then 0 else RowsOnes(M, a - 1, n) + Ones(M[a - 1], n)
  }

  ghost function ColumnOnes(M: seq<seq<bool>>, a: nat, c: nat): nat
    requires Wide(M, a, c + 1)
  {
    if a == 0 then 0 else ColumnOnes(M, a - 1, c) + if M[a - 1][c] then 1 else 0
  }

  ghost function ColumnsOnes(M: seq<seq<bool>>, a: nat, n: nat): nat
    requires Wide(M, a, n)
  {
    if n == 0 then 0 else ColumnsOnes(M, a, n - 1) + ColumnOnes(M, a, n - 1)
  }

  lemma {:induction false} OneMoreRow(M: seq<seq<bool>>, a: nat, n: nat)
    requires Wide(M, a, n) && 0 < a
    ensures ColumnsOnes(M, a, n) == ColumnsOnes(M, a - 1, n) + Ones(M[a - 1], n)
  {
    if n > 0 {
      OneMoreRow(M, a, n - 1);
    }
  }

  lemma {:induction false} RowsAreColumns(M: seq<seq<bool>>, a: nat, n: nat)
    requires Wide(M, a, n)
    ensures RowsOnes(M, a, n) == ColumnsOnes(M, a, n)
  {
    if a > 0 {
      RowsAreColumns(M, a - 1, n);
      OneMoreRow(M, a, n);
    } else {
      NoRows(M, n);
    }
  }

  lemma {:induction false} NoRows(M: seq<seq<bool>>, n: nat)
    ensures ColumnsOnes(M, 0, n) == 0
  {
    if n > 0 {
      NoRows(M, n - 1);
    }
  }

  // ---- One block of rows of the bitmatrix.

  // The w rows for matrix row i.
  ghost predicate BlockRows(g: seq<bool>, row: seq<seq<bool>>, M: seq<seq<bool>>, k: nat) {
    && |M| == |g| > 0 && |row| == k && (forall j | 0 <= j < k :: |row[j]| == |g|)
    && (forall l | 0 <= l < |g| :: |M[l]| == Pos(|g|, k, 0))
    && forall l, j, x | 0 <= l < |g| && 0 <= j < k && 0 <= x < |g| :: RowBit(g, row, M, l, j, x)
  }

  ghost predicate RowBit(g: seq<bool>, row: seq<seq<bool>>, M: seq<seq<bool>>, l: nat, j: nat, x: nat)
    requires l < |g| == |M| && j < |row| && |row[j]| == |g|
  {
    Pos(|g|, j, x) < |M[l]| && M[l][Pos(|g|, j, x)] == BlockBit(g, row[j], l, x)
  }

  lemma BlockWide(g: seq<bool>, row: seq<seq<bool>>, M: seq<seq<bool>>, k: nat, j: nat, x: nat)
    requires BlockRows(g, row, M, k) && j < k && x <= |g|
    ensures Wide(M, |g|, Pos(|g|, j, x))
  {
    MulNext(j, k, |g|);
  }

  // Column x of block j has the ones of the element doubled x times.
  lemma {:induction false} ColumnIsDoubled(g: seq<bool>, row: seq<seq<bool>>, M: seq<seq<bool>>, k: nat, j: nat, x: nat,
                                           a: nat)
    requires BlockRows(g, row, M, k) && j < k && x < |g| && a <= |g|
    ensures Wide(M, a, Pos(|g|, j, x) + 1) && |Doubled(g, row[j], x)| == |g|
    ensures ColumnOnes(M, a, Pos(|g|, j, x)) == Ones(Doubled(g, row[j], x), a)
  {
    hide Pos, Doubled, BlockRows;
    BlockWide(g, row, M, k, j, x + 1);
    if a > 0 {
      ColumnIsDoubled(g, row, M, k, j, x, a - 1);
      BlockBitAt(g, row, M, k, a - 1, j, x);
    }
  }

  lemma BlockBitAt(g: seq<bool>, row: seq<seq<bool>>, M: seq<seq<bool>>, k: nat, l: nat, j: nat, x: nat)
    requires BlockRows(g, row, M, k) && l < |g| && j < k && x < |g|
    ensures Pos(|g|, j, x) < |M[l]| && M[l][Pos(|g|, j, x)] == Doubled(g, row[j], x)[l]
  {
    assert RowBit(g, row, M, l, j, x);
  }

  lemma NextColumn(M: seq<seq<bool>>, a: nat, p: nat, n: nat)
    requires Wide(M, a, n) && n == p + 1
    ensures Wide(M, a, p) && ColumnsOnes(M, a, n) == ColumnsOnes(M, a, p) + ColumnOnes(M, a, p)
  {
  }

  // The columns of one block.
  lemma {:induction false} BlockColumns(g: seq<bool>, row: seq<seq<bool>>, M: seq<seq<bool>>, k: nat, j: nat, x: nat)
    requires BlockRows(g, row, M, k) && j < k && x <= |g|
    ensures Wide(M, |g|, Pos(|g|, j, 0)) && Wide(M, |g|, Pos(|g|, j, x))
    ensures ColumnsOnes(M, |g|, Pos(|g|, j, x)) == ColumnsOnes(M, |g|, Pos(|g|, j, 0)) + BlockOnes(g, row[j], x)
  {
    hide ColumnsOnes, Wide;
    hide Pos, BlockRows, ColumnOnes, Ones, Doubled;
    BlockWide(g, row, M, k, j, 0);
    BlockWide(g, row, M, k, j, x);
    PosNext(|g|, j, x);
    if x > 0 {
      NextColumn(M, |g|, Pos(|g|, j, x - 1), Pos(|g|, j, x));
      BlockColumns(g, row, M, k, j, x - 1);
      ColumnIsDoubled(g, row, M, k, j, x - 1, |g|);
    }
  }

  // The columns of the first n blocks.
  lemma {:induction false} ColumnsAreBlocks(g: seq<bool>, row: seq<seq<bool>>, M: seq<seq<bool>>, k: nat, n: nat)
    requires BlockRows(g, row, M, k) && n <= k
    ensures Wide(M, |g|, Pos(|g|, n, 0)) && ColumnsOnes(M, |g|, Pos(|g|, n, 0)) == RowOnes(g, row, n)
  {
    PosNext(|g|, n, 0);
    if n > 0 {
      BlockWide(g, row, M, k, n - 1, |g|);
      hide Pos, BlockRows, ColumnsOnes, Wide, BlockOnes;
      ColumnsAreBlocks(g, row, M, k, n - 1);
      BlockColumns(g, row, M, k, n - 1, |g|);
    }
  }

  lemma PosNext(w: nat, j: nat, x: nat)
    ensures x > 0 ==> Pos(w, j, x) == Pos(w, j, x - 1) + 1
    ensures j > 0 ==> Pos(w, j, 0) == Pos(w, j - 1, w)
    ensures Pos(w, 0, 0) == 0
  {
  }

  /** A matrix row and its w bitmatrix rows have the same ones. */
  lemma BlockRowsOnes(g: seq<bool>, row: seq<seq<bool>>, M: seq<seq<bool>>, k: nat)
    requires BlockRows(g, row, M, k)
    ensures Wide(M, |g|, Pos(|g|, k, 0)) && RowsOnes(M, |g|, Pos(|g|, k, 0)) == RowOnes(g, row, k)
  {
    hide Pos, BlockRows, Wide, RowsOnes, ColumnsOnes, RowOnes;
    ColumnsAreBlocks(g, row, M, k, k);
    RowsAreColumns(M, |g|, Pos(|g|, k, 0));
  }

  // ---- The whole bitmatrix.

  lemma {:induction false} TotalOnesMore(cols: nat, B: seq<seq<bool>>, M: seq<seq<bool>>, first: nat, a: nat)
    requires IsBitmatrix(B, |B|, cols) && Wide(M, a, cols) && first + a <= |B|
    requires forall l | 0 <= l < a :: M[l] == B[first + l]
    ensures TotalOnes(cols, B, first + a) == TotalOnes(cols, B, first) + RowsOnes(M, a, cols)
  {
    if a > 0 {
      TotalOnesMore(cols, B, M, first, a - 1);
    }
  }

  lemma TotalOnesSlice(cols: nat, B: seq<seq<bool>>, first: nat, a: nat)
    requires IsBitmatrix(B, |B|, cols) && first + a <= |B|
    ensures Wide(B[first..first + a], a, cols)
    ensures TotalOnes(cols, B, first + a) == TotalOnes(cols, B, first) + RowsOnes(B[first..first + a], a, cols)
  {
    TotalOnesMore(cols, B, B[first..first + a], first, a);
  }

  lemma BlockAdds(g: seq<bool>, row: seq<seq<bool>>, B: seq<seq<bool>>, cols: nat, k: nat, first: nat)
    requires IsBitmatrix(B, |B|, cols) && cols == Pos(|g|, k, 0) && first + |g| <= |B|
    requires BlockRows(g, row, B[first..first + |g|], k)
    ensures TotalOnes(cols, B, first + |g|) == TotalOnes(cols, B, first) + RowOnes(g, row, k)
  {
    hide TotalOnes, RowOnes, BlockRows, RowsOnes, Wide, Pos;
    TotalOnesSlice(cols, B, first, |g|);
    BlockRowsOnes(g, row, B[first..first + |g|], k);
  }

  lemma ExpandedBlock(g: seq<bool>, k: nat, C: seq<seq<seq<bool>>>, rows: nat, cols: nat, i: nat, first: nat)
    requires |g| > 0 && IsMatrix(GF(g), C, |C|, k) && i < |C| && Column(|g|, |C|, 0, rows) && Column(|g|, k, 0, cols)
    requires Column(|g|, i, 0, first)
    ensures first + |g| <= rows && cols == Pos(|g|, k, 0)
    ensures BlockRows(g, C[i], Expanded(g, k, C, rows, cols)[first..first + |g|], k)
  {
    hide Expanded, Column, Doubled;
    ColumnBlock(|g|, i, first, |C|, rows);
    assert IsVec(GF(g), C[i], k);
    var B := Expanded(g, k, C, rows, cols);
    var M := B[first..first + |g|];
    assert cols == Pos(|g|, k, 0) by { ColumnIs(|g|, k, cols); }
    forall l, j, x | 0 <= l < |g| && 0 <= j < k && 0 <= x < |g|
      ensures RowBit(g, C[i], M, l, j, x)
    {
      ColumnShift(|g|, i, first, l);
      PosColumn(|g|, j, x);
      ExpandedBit(g, k, C, rows, cols, i, l, first + l, j, x, Pos(|g|, j, x));
    }
  }

  lemma ColumnIs(w: nat, k: nat, cols: nat)
    requires Column(w, k, 0, cols)
    ensures cols == Pos(w, k, 0)
  {
  }

  lemma PosColumn(w: nat, j: nat, x: nat)
    ensures Column(w, j, x, Pos(w, j, x))
  {
  }

  lemma RowShape(g: seq<bool>, k: nat, C: seq<seq<seq<bool>>>, i: nat)
    requires IsMatrix(GF(g), C, |C|, k) && i < |C|
    ensures |C[i]| == k && forall j | 0 <= j < k :: |C[i][j]| == |g|
  {
    assert IsVec(GF(g), C[i], k);
  }

  /** Row i of the matrix adds to the ones of the bitmatrix what cauchy_n_ones counts for its elements. */
  lemma RowOnesExpanded(g: seq<bool>, k: nat, C: seq<seq<seq<bool>>>, rows: nat, cols: nat, i: nat, first: nat)
    requires |g| > 0 && IsMatrix(GF(g), C, |C|, k) && i < |C| && Column(|g|, |C|, 0, rows) && Column(|g|, k, 0, cols)
    requires Column(|g|, i, 0, first)
    ensures first + |g| <= rows && |C[i]| == k && forall j | 0 <= j < k :: |C[i][j]| == |g|
    ensures TotalOnes(cols, Expanded(g, k, C, rows, cols), first + |g|) ==
      TotalOnes(cols, Expanded(g, k, C, rows, cols), first) + RowOnes(g, C[i], k)
  {
    hide Expanded, Column, TotalOnes, RowOnes, BlockRows, Pos, IsMatrix;
    ExpandedBlock(g, k, C, rows, cols, i, first);
    RowShape(g, k, C, i);
    BlockAdds(g, C[i], Expanded(g, k, C, rows, cols), cols, k, first);
  }

  ghost function MatrixOnes(g: seq<bool>, k: nat, C: seq<seq<seq<bool>>>, n: nat): nat
    requires IsMatrix(GF(g), C, |C|, k) && n <= |C|
  {
    if n == 0 then 0 else
      assert IsVec(GF(g), C[n - 1], k);
      MatrixOnes(g, k, C, n - 1) + RowOnes(g, C[n - 1], k)
  }

  lemma BlockBefore(w: nat, n: nat, first: nat) returns (before: nat)
    requires n > 0 && Column(w, n, 0, first)
    ensures Column(w, n - 1, 0, before) && first == before + w
  {
    before := (n - 1) * w;
  }

  lemma NoTotal(cols: nat, B: seq<seq<bool>>, w: nat, first: nat)
    requires IsBitmatrix(B, |B|, cols) && Column(w, 0, 0, first)
    ensures first == 0 && TotalOnes(cols, B, first) == 0
  {
  }

  /** So the ones of the first n matrix rows, which is the number of operations of their dumb schedule, are their
      sum. */
  lemma {:induction false} TotalOnesExpanded(g: seq<bool>, k: nat, C: seq<seq<seq<bool>>>, rows: nat, cols: nat, n: nat,
                                             first: nat)
    requires |g| > 0 && IsMatrix(GF(g), C, |C|, k) && n <= |C| && Column(|g|, |C|, 0, rows) && Column(|g|, k, 0, cols)
    requires Column(|g|, n, 0, first)
    ensures first <= rows && TotalOnes(cols, Expanded(g, k, C, rows, cols), first) == MatrixOnes(g, k, C, n)
  {
    hide Column, Expanded, TotalOnes, RowOnes;
    ColumnOrder(|g|, n, first, |C|, rows);
    if n == 0 {
      NoTotal(cols, Expanded(g, k, C, rows, cols), |g|, first);
    } else {
      var before := BlockBefore(|g|, n, first);
      TotalOnesExpanded(g, k, C, rows, cols, n - 1, before);
      RowOnesExpanded(g, k, C, rows, cols, n - 1, before);
    }
  }

  lemma {:induction false} FewerOnes(g: seq<bool>, k: nat, C: seq<seq<seq<bool>>>, C': seq<seq<seq<bool>>>, n: nat)
    requires IsMatrix(GF(g), C, |C|, k) && IsMatrix(GF(g), C', |C'|, k) && n <= |C| && n <= |C'|
    requires forall i | 0 <= i < n ::
      IsRow(g, C[i]) && IsRow(g, C'[i]) && RowOnes(g, C'[i], |C'[i]|) <= RowOnes(g, C[i], |C[i]|)
    ensures MatrixOnes(g, k, C', n) <= MatrixOnes(g, k, C, n)
  {
    hide RowOnes;
    if n > 0 {
      FewerOnes(g, k, C, C', n - 1);
      assert IsVec(GF(g), C[n - 1], k) && IsVec(GF(g), C'[n - 1], k);
    }
  }

  /** Rows with no more ones each, as the row phase of cauchy_improve_coding_matrix leaves them, give a bitmatrix
      with no more ones, and so a dumb schedule that is no longer. */
  lemma ImprovedSchedule(g: seq<bool>, k: nat, C: seq<seq<seq<bool>>>, C': seq<seq<seq<bool>>>, rows: nat, cols: nat)
    requires |g| > 0 && IsMatrix(GF(g), C, |C|, k) && IsMatrix(GF(g), C', |C'|, k) && |C'| == |C| > 0
    requires Column(|g|, |C|, 0, rows) && Column(|g|, k, 0, cols)
    requires C'[0] == C[0] && forall i | 1 <= i < |C| :: BestRow(g, C[i], C'[i])
    ensures TotalOnes(cols, Expanded(g, k, C', rows, cols), rows) <=
      TotalOnes(cols, Expanded(g, k, C, rows, cols), rows)
  {
    hide Expanded, Column, RowOnes, BestRow;
    forall i | 0 <= i < |C|
      ensures IsRow(g, C[i]) && IsRow(g, C'[i]) && RowOnes(g, C'[i], |C'[i]|) <= RowOnes(g, C[i], |C[i]|)
    {
      assert IsVec(GF(g), C[i], k) && IsVec(GF(g), C'[i], k);
      if i > 0 {
        BestRowOnes(g, C[i], C'[i]);
      }
    }
    TotalOnesExpanded(g, k, C, rows, cols, |C|, rows);
    TotalOnesExpanded(g, k, C', rows, cols, |C|, rows);
    FewerOnes(g, k, C, C', |C|);
  }
}

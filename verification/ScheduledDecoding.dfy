/** Decoding by schedule: one matrix that rebuilds every lost packet from what the survivors hold. */
module ScheduledDecoding {
  import opened Arithmetic
  import opened Fields
  import opened LinearAlgebra
  import opened Elimination
  import opened Schedules
  import opened Compilers
  import opened SpanningPlans
  import opened Encoders
  import opened Erasures
  import opened DecodingTheory

  method UnitRow(a: array2<bool>, r: nat)
    requires r < a.Length0
    modifies a
    ensures Rows(a) == old(Rows(a))[r := UnitVec(F2, a.Length1, r)]
  {
    for c := 0 to a.Length1
      invariant forall i, j | 0 <= i < a.Length0 && 0 <= j < a.Length1 ::
        a[i, j] == if i == r && j < c then j == r else old(a[i, j])
    {
      a[r, c] := c == r;
    }
    assert forall i | 0 <= i < a.Length0 :: Rows(a)[i] == old(Rows(a))[r := UnitVec(F2, a.Length1, r)][i];
  }

  method CopyRow(a: array2<bool>, r: nat, b: array2<bool>, s: nat)
    requires r < a.Length0 && s < b.Length0 && a.Length1 == b.Length1 && a != b
    modifies a
    ensures Rows(a) == old(Rows(a))[r := Rows(b)[s]]
  {
    for c := 0 to a.Length1
      invariant forall i, j | 0 <= i < a.Length0 && 0 <= j < a.Length1 ::
        a[i, j] == if i == r && j < c then b[s, j] else old(a[i, j])
    {
      a[r, c] := b[s, c];
    }
    assert forall i | 0 <= i < a.Length0 :: Rows(a)[i] == old(Rows(a))[r := Rows(b)[s]][i];
  }

  lemma GeneratorRow(k: nat, m: nat, w: nat, cols: nat, B: seq<seq<bool>>, d: nat, y: nat, first: nat)
    requires 0 < w && Shape(k, m, w, cols, |B|) && IsBitmatrix(B, |B|, cols) && d < k + m && y < w
    ensures d < k ==> Pos(w, d, y) < cols && Generator(cols, B, Pos(w, d, y)) == UnitVec(F2, cols, Pos(w, d, y))
    ensures d >= k && Column(w, d - k, 0, first) ==>
      first + y < |B| && Generator(cols, B, Pos(w, d, y)) == B[first + y]
  {
    if d < k {
      MulNext(d, k, w);
    } else {
      MulNext(d - k, m, w);
      assert d * w == (d - k) * w + k * w;
    }
  }

  // Row q of the survivor matrix, as a row of device d.
  lemma SurvivorRow(k: nat, m: nat, w: nat, cols: nat, B: seq<seq<bool>>, ids: seq<nat>, i: nat, x: nat, q: nat,
                    first: nat)
    requires 0 < w && Shape(k, m, w, cols, |B|) && IsBitmatrix(B, |B|, cols) && i < k <= |ids| && x < w
    requires Column(w, i, x, q) && ids[i] < k + m && (ids[i] < k ==> ids[i] == i)
    ensures q < cols && q / w == i
    ensures ids[i] == i ==> SurvivorMatrix(w, cols, B, ids)[q] == UnitVec(F2, cols, q)
    ensures ids[i] != i && Column(w, ids[i] - k, 0, first) ==>
      first + x < |B| && SurvivorMatrix(w, cols, B, ids)[q] == B[first + x]
  {
    ColumnNext(k, w, i, x, q, cols);
    GeneratorRow(k, m, w, cols, B, ids[i], x, first);
  }

  /** The matrix whose inverse gives the lost data: rows of the surviving devices. */
  method BuildSurvivorMatrix(k: nat, m: nat, w: nat, bitmatrix: array2<bool>, rowIds: array<int>, ghost ids: seq<nat>)
    returns (dm: array2<bool>)
    requires 0 < w && Shape(k, m, w, bitmatrix.Length1, bitmatrix.Length0)
    requires k <= |ids| && k <= rowIds.Length && forall i | 0 <= i < k :: rowIds[i] == ids[i] < k + m
    requires forall i | 0 <= i < k :: ids[i] < k ==> ids[i] == i
    ensures fresh(dm) && dm.Length0 == dm.Length1 == bitmatrix.Length1
    ensures Rows(dm) == SurvivorMatrix(w, bitmatrix.Length1, Rows(bitmatrix), ids)
  {
    hide Shape, Column, SurvivorMatrix, Rows;
    ghost var cols, B := bitmatrix.Length1, Rows(bitmatrix);
    ghost var D := SurvivorMatrix(w, cols, B, ids);
    dm := new bool[bitmatrix.Length1, bitmatrix.Length1];
    var row := 0;
    ColumnStart(w, 0, 0);
    for i := 0 to k
      invariant Column(w, i, 0, row) && row <= cols
      invariant forall q | 0 <= q < row :: Rows(dm)[q] == D[q]
    {
      var first := (rowIds[i] - k) * w;
      ColumnIntro(w, rowIds[i] - k, first);
      for x := 0 to w
        invariant Column(w, i, x, row) && row <= cols
        invariant forall q | 0 <= q < row :: Rows(dm)[q] == D[q]
      {
        SurvivorRow(k, m, w, cols, B, ids, i, x, row, if rowIds[i] < k then 0 else first);
        ColumnNextOnly(w, i, x, row);
        if rowIds[i] == i {
          UnitRow(dm, row);
        } else {
          CopyRow(dm, row, bitmatrix, first + x);
        }
        row := row + 1;
      }
      ColumnStart(w, i, row);
    }
    AllRowsSet(k, m, w, cols, |B|, row);
    assert Rows(dm) == D;
  }

  lemma ColumnIntro(w: nat, d: int, first: int)
    requires first == d * w
    ensures d >= 0 ==> first >= 0 && Column(w, d, 0, first)
  {
  }

  lemma ColumnNextOnly(w: nat, x: nat, y: nat, index: nat)
    requires Column(w, x, y, index)
    ensures Column(w, x, y + 1, index + 1)
  {
  }

  lemma AllRowsSet(k: nat, m: nat, w: nat, cols: nat, rows: nat, row: nat)
    requires Shape(k, m, w, cols, rows) && Column(w, k, 0, row)
    ensures row == cols
  {
  }

  // ---- The rows for lost data devices.

  // Row q is the row of the inverse for the packet it recovers.
  ghost predicate InverseRow(w: nat, k: nat, ids: seq<nat>, inverse: seq<seq<bool>>, R: seq<seq<bool>>, q: nat)
    requires 0 < w
  {
    && HasTarget(w, k, ids, q) && q < |R|
    && Target(w, k, ids, q) < |inverse| && R[q] == inverse[Target(w, k, ids, q)]
  }

  lemma TargetIs(w: nat, k: nat, ids: seq<nat>, i: nat, x: nat, q: nat)
    requires 0 < w && Column(w, i, x, q) && x < w && k + i < |ids|
    ensures HasTarget(w, k, ids, q) && Target(w, k, ids, q) == Pos(w, ids[k + i], x)
  {
    DivModUnique(w, i, x);
  }

  lemma PosIs(w: nat, d: nat, first: nat, x: nat)
    requires Column(w, d, 0, first)
    ensures Pos(w, d, x) == first + x && Column(w, d, x, first + x)
  {
  }

  method CopyInverseRows(k: nat, m: nat, w: nat, inverse: array2<bool>, rdm: array2<bool>, rowIds: array<int>,
                         ddf: nat, ghost ids: seq<nat>, ghost rows: nat) returns (top: nat)
    requires 0 < w && Shape(k, m, w, inverse.Length0, rows) && inverse.Length1 == rdm.Length1 && rdm != inverse
    requires k + ddf <= |ids| && k + ddf <= rowIds.Length && ddf * w <= rdm.Length0
    requires forall x | k <= x < k + ddf :: rowIds[x] == ids[x] < k
    modifies rdm
    ensures Column(w, ddf, 0, top) && top <= rdm.Length0
    ensures forall q | 0 <= q < top :: InverseRow(w, k, ids, Rows(inverse), Rows(rdm), q)
  {
    hide Shape, Column, Rows, Target, HasTarget;
    top := 0;
    ghost var total := ddf * w;
    ColumnIntro(w, ddf, total);
    ColumnStart(w, 0, 0);
    for i := 0 to ddf
      invariant Column(w, i, 0, top) && top <= total
      invariant forall q | 0 <= q < top :: InverseRow(w, k, ids, Rows(inverse), Rows(rdm), q)
    {
      assert rowIds[k + i] == ids[k + i];
      var first: int := rowIds[k + i] * w;
      ColumnIntro(w, rowIds[k + i], first);
      for x := 0 to w
        invariant Column(w, i, x, top) && top <= total
        invariant forall q | 0 <= q < top :: InverseRow(w, k, ids, Rows(inverse), Rows(rdm), q)
      {
        ColumnNext(ddf, w, i, x, top, total);
        TargetIs(w, k, ids, i, x, top);
        PosIs(w, ids[k + i], first, x);
        DataBound(k, m, w, inverse.Length0, rows, ids[k + i], x);
        ghost var was := Rows(rdm);
        CopyRow(rdm, top, inverse, first + x);
        forall q | 0 <= q <= top
          ensures InverseRow(w, k, ids, Rows(inverse), Rows(rdm), q)
        {
          assert q < top ==> InverseRow(w, k, ids, Rows(inverse), was, q);
        }
        top := top + 1;
      }
      ColumnStart(w, i, top);
    }
  }

  lemma DataBound(k: nat, m: nat, w: nat, cols: nat, rows: nat, d: nat, x: nat)
    requires Shape(k, m, w, cols, rows) && d < k && x < w
    ensures Pos(w, d, x) < cols
  {
    MulNext(d, k, w);
  }

  // ---- The rows for lost coding devices.

  ghost function LostColumns(w: nat, cols: nat, ids: seq<nat>): (r: seq<bool>)
    requires 0 < w
    ensures |r| == cols
  {
    seq(cols, c requires 0 <= c < cols => c / w < |ids| && ids[c / w] != c / w)
  }

  // Row r without its lost columns below pos.
  ghost predicate ZeroedTo(lost: seq<bool>, row: seq<bool>, cur: seq<bool>, pos: nat) {
    |lost| == |row| == |cur| && forall c | 0 <= c < |row| :: cur[c] == (row[c] && !(lost[c] && c < pos))
  }

  // Columns [from, to) of row r become zero.
  method ZeroColumns(a: array2<bool>, r: nat, from: nat, to: nat)
    requires r < a.Length0 && from <= to <= a.Length1
    modifies a
    ensures forall i, j | 0 <= i < a.Length0 && 0 <= j < a.Length1 ::
      a[i, j] == (old(a[i, j]) && !(i == r && from <= j < to))
  {
    for c := from to to
      invariant forall i, j | 0 <= i < a.Length0 && 0 <= j < a.Length1 ::
        a[i, j] == (old(a[i, j]) && !(i == r && from <= j < c))
    {
      a[r, c] := false;
    }
  }

  // The rows of a block other than [first, first + w) stay as they were.
  ghost predicate OnlyBlock(R: seq<seq<bool>>, R': seq<seq<bool>>, first: nat, w: nat) {
    |R| == |R'| && forall q | 0 <= q < |R| && !(first <= q < first + w) :: R'[q] == R[q]
  }

  lemma BlockColumns(k: nat, m: nat, w: nat, cols: nat, rows: nat, ids: seq<nat>, i: nat, pos: nat)
    requires 0 < w && Shape(k, m, w, cols, rows) && Column(w, i, 0, pos) && i < k <= |ids|
    ensures pos + w <= cols && Column(w, i + 1, 0, pos + w)
    ensures forall c | pos <= c < pos + w :: LostColumns(w, cols, ids)[c] == (ids[i] != i)
  {
    MulNext(i, k, w);
    forall c | pos <= c < pos + w
      ensures c / w == i
    {
      DivModUnique(w, i, c - pos);
    }
  }

  method StartCodingBlock(k: nat, m: nat, w: nat, bitmatrix: array2<bool>, rdm: array2<bool>, rowIds: array<int>,
                          first: nat, src: nat, ghost ids: seq<nat>)
    requires 0 < w && Shape(k, m, w, bitmatrix.Length1, bitmatrix.Length0) && rdm != bitmatrix
    requires rdm.Length1 == bitmatrix.Length1 && first + w <= rdm.Length0 && src + w <= bitmatrix.Length0
    requires k <= |ids| && k <= rowIds.Length && forall i | 0 <= i < k :: rowIds[i] == ids[i]
    modifies rdm
    ensures OnlyBlock(old(Rows(rdm)), Rows(rdm), first, w)
    ensures forall q | first <= q < first + w ::
      Rows(rdm)[q] == Masked(LostColumns(w, bitmatrix.Length1, ids), Rows(bitmatrix)[src + (q - first)], 0)
  {
    hide Rows, Shape, Column, LostColumns;
    ghost var cols, B := bitmatrix.Length1, Rows(bitmatrix);
    ghost var lost := LostColumns(w, cols, ids);
    for j := 0 to w
      invariant OnlyBlock(old(Rows(rdm)), Rows(rdm), first, w)
      invariant forall q | first <= q < first + j :: Rows(rdm)[q] == B[src + (q - first)]
    {
      CopyRow(rdm, first + j, bitmatrix, src + j);
    }
    ZeroLostColumns(k, m, w, rdm, rowIds, first, src, ids, B, cols);
  }

  method ZeroLostColumns(k: nat, m: nat, w: nat, rdm: array2<bool>, rowIds: array<int>,
                         first: nat, src: nat, ghost ids: seq<nat>, ghost B: seq<seq<bool>>, ghost cols: nat)
    requires 0 < w && Shape(k, m, w, cols, |B|) && IsBitmatrix(B, |B|, cols)
    requires rdm.Length1 == cols && first + w <= rdm.Length0 && src + w <= |B|
    requires k <= |ids| && k <= rowIds.Length && forall i | 0 <= i < k :: rowIds[i] == ids[i]
    requires forall q | first <= q < first + w :: Rows(rdm)[q] == B[src + (q - first)]
    modifies rdm
    ensures OnlyBlock(old(Rows(rdm)), Rows(rdm), first, w)
    ensures forall q | first <= q < first + w ::
      Rows(rdm)[q] == Masked(LostColumns(w, cols, ids), B[src + (q - first)], 0)
  {
    hide Rows, Shape, Column, LostColumns;
    ghost var lost := LostColumns(w, cols, ids);
    var pos := 0;
    ColumnStart(w, 0, 0);
    for i := 0 to k
      invariant Column(w, i, 0, pos) && pos <= cols
      invariant OnlyBlock(old(Rows(rdm)), Rows(rdm), first, w)
      invariant forall q | first <= q < first + w :: ZeroedTo(lost, B[src + (q - first)], Rows(rdm)[q], pos)
    {
      BlockColumns(k, m, w, cols, |B|, ids, i, pos);
      if rowIds[i] != i {
        for j := 0 to w
          invariant OnlyBlock(old(Rows(rdm)), Rows(rdm), first, w)
          invariant forall q | first <= q < first + w ::
            ZeroedTo(lost, B[src + (q - first)], Rows(rdm)[q], if q < first + j then pos + w else pos)
        {
          ghost var was := Rows(rdm);
          ZeroColumns(rdm, first + j, pos, pos + w);
          assert forall q | 0 <= q < rdm.Length0 && q != first + j :: Rows(rdm)[q] == was[q];
        }
      }
      pos := pos + w;
    }
    AllRowsSet(k, m, w, cols, |B|, pos);
    forall q | first <= q < first + w
      ensures Rows(rdm)[q] == Masked(lost, B[src + (q - first)], 0)
    {
      assert ZeroedTo(lost, B[src + (q - first)], Rows(rdm)[q], cols);
    }
  }

  // When the survivors determine the data, row q recovers the lost data packet it is for.
  ghost predicate DataRow(good: bool, w: nat, k: nat, cols: nat, D: seq<seq<bool>>, ids: seq<nat>, R: seq<seq<bool>>,
                          q: nat)
    requires 0 < w
  {
    && HasTarget(w, k, ids, q) && q < |R| && |R[q]| == cols && Target(w, k, ids, q) < cols
    && (good ==> Recovers(cols, D, R[q], UnitVec(F2, cols, Target(w, k, ids, q))))
  }

  ghost predicate CodingRow(good: bool, cols: nat, D: seq<seq<bool>>, lost: seq<bool>, row: seq<bool>, cur: seq<bool>,
                            c: nat)
  {
    && |lost| == |row| == |cur| == cols
    && (good ==> Recovers(cols, D, cur, Masked(lost, row, c)))
  }

  // The row of the lost data device behind pointer number p, for its packet y.
  lemma FixRow(good: bool, w: nat, k: nat, cols: nat, D: seq<seq<bool>>, ids: seq<nat>, R: seq<seq<bool>>, ddf: nat,
               top: nat, i: nat, p: nat, y: nat, fix0: nat, pos: nat)
    requires 0 < w && Column(w, ddf, 0, top) && k + ddf <= |ids| && k <= p < k + ddf && ids[p] == i && y < w
    requires Column(w, p - k, 0, fix0) && Column(w, i, 0, pos)
    requires forall q | 0 <= q < top :: DataRow(good, w, k, cols, D, ids, R, q)
    ensures fix0 + y < top && fix0 + y < |R| && |R[fix0 + y]| == cols && pos + y < cols
    ensures good ==> Recovers(cols, D, R[fix0 + y], UnitVec(F2, cols, pos + y))
  {
    MulNext(p - k, ddf, w);
    assert DataRow(good, w, k, cols, D, ids, R, fix0 + y);
    TargetIs(w, k, ids, p - k, y, fix0 + y);
  }

  lemma FixStep(good: bool, w: nat, k: nat, cols: nat, D: seq<seq<bool>>, ids: seq<nat>, R: seq<seq<bool>>, ddf: nat,
                top: nat, i: nat, p: nat, y: nat, fix0: nat, pos: nat, lost: seq<bool>, row: seq<bool>, cur: seq<bool>)
    requires 0 < w && Column(w, ddf, 0, top) && k + ddf <= |ids| && k <= p < k + ddf && ids[p] == i && y < w
    requires Column(w, p - k, 0, fix0) && Column(w, i, 0, pos)
    requires forall q | 0 <= q < top :: DataRow(good, w, k, cols, D, ids, R, q)
    requires CodingRow(good, cols, D, lost, row, cur, pos + y)
    ensures fix0 + y < top && fix0 + y < |R| && |R[fix0 + y]| == cols && pos + y < cols
    ensures lost[pos + y] ==>
      CodingRow(good, cols, D, lost, row, if row[pos + y] then AddScaled(F2, cur, true, R[fix0 + y]) else cur,
                pos + y + 1)
  {
    FixRow(good, w, k, cols, D, ids, R, ddf, top, i, p, y, fix0, pos);
    if good {
      MaskNext(cols, D, lost, row, pos + y, cur, R[fix0 + y]);
    }
  }

  lemma DataRowsKept(good: bool, w: nat, k: nat, cols: nat, D: seq<seq<bool>>, ids: seq<nat>, R: seq<seq<bool>>,
                     R': seq<seq<bool>>, top: nat)
    requires 0 < w && top <= |R| == |R'| && forall q | 0 <= q < top :: R'[q] == R[q]
    requires forall q | 0 <= q < top :: DataRow(good, w, k, cols, D, ids, R, q)
    ensures forall q | 0 <= q < top :: DataRow(good, w, k, cols, D, ids, R', q)
  {
    forall q | 0 <= q < top
      ensures DataRow(good, w, k, cols, D, ids, R', q)
    {
      assert DataRow(good, w, k, cols, D, ids, R, q);
    }
  }

  lemma SkipColumns(good: bool, cols: nat, D: seq<seq<bool>>, lost: seq<bool>, row: seq<bool>, cur: seq<bool>, pos: nat,
                    w: nat)
    requires CodingRow(good, cols, D, lost, row, cur, pos) && pos + w <= cols
    requires forall c | pos <= c < pos + w :: !lost[c]
    ensures CodingRow(good, cols, D, lost, row, cur, pos + w)
  {
    assert Masked(lost, row, pos) == Masked(lost, row, pos + w);
  }

  // The pointer of every lost data device.
  ghost predicate FindsLost(k: nat, ids: seq<nat>, indToRow: array<int>, ddf: nat)
    reads indToRow
  {
    && k <= |ids| && k <= indToRow.Length
    && forall i | 0 <= i < k && ids[i] != i :: k <= indToRow[i] < k + ddf <= |ids| && ids[indToRow[i]] == i
  }

  // The state of the w rows from first on: the first j have been corrected up to column pos + w.
  ghost predicate BlockAt(good: bool, w: nat, cols: nat, D: seq<seq<bool>>, lost: seq<bool>, B: seq<seq<bool>>,
                          src: nat, R0: seq<seq<bool>>, R: seq<seq<bool>>, first: nat, j: nat, pos: nat)
  {
    && first + w <= |R| && src + w <= |B|
    && OnlyBlock(R0, R, first, w)
    && forall q | first <= q < first + w ::
         CodingRow(good, cols, D, lost, B[src + (q - first)], R[q], if q < first + j then pos + w else pos)
  }

  lemma BlockRow(good: bool, w: nat, cols: nat, D: seq<seq<bool>>, lost: seq<bool>, B: seq<seq<bool>>, src: nat,
                 R0: seq<seq<bool>>, R: seq<seq<bool>>, first: nat, j: nat, pos: nat)
    requires BlockAt(good, w, cols, D, lost, B, src, R0, R, first, j, pos)
    ensures first + w <= |R| && src + w <= |B|
    ensures j < w ==> CodingRow(good, cols, D, lost, B[src + j], R[first + j], pos)
    ensures j == w ==> BlockAt(good, w, cols, D, lost, B, src, R0, R, first, 0, pos + w)
  {
    if j < w {
      assert CodingRow(good, cols, D, lost, B[src + (first + j - first)], R[first + j], pos);
    }
  }

  lemma BlockNextRow(good: bool, w: nat, cols: nat, D: seq<seq<bool>>, lost: seq<bool>, B: seq<seq<bool>>, src: nat,
                     R0: seq<seq<bool>>, R: seq<seq<bool>>, R': seq<seq<bool>>, first: nat, j: nat, pos: nat)
    requires BlockAt(good, w, cols, D, lost, B, src, R0, R, first, j, pos) && j < w
    requires |R'| == |R| && forall q | 0 <= q < |R| && q != first + j :: R'[q] == R[q]
    requires CodingRow(good, cols, D, lost, B[src + j], R'[first + j], pos + w)
    ensures BlockAt(good, w, cols, D, lost, B, src, R0, R', first, j + 1, pos)
  {
  }

  lemma BlockSkip(good: bool, w: nat, cols: nat, D: seq<seq<bool>>, lost: seq<bool>, B: seq<seq<bool>>, src: nat,
                  R0: seq<seq<bool>>, R: seq<seq<bool>>, first: nat, pos: nat)
    requires BlockAt(good, w, cols, D, lost, B, src, R0, R, first, 0, pos) && pos + w <= cols == |lost|
    requires forall c | pos <= c < pos + w :: !lost[c]
    ensures BlockAt(good, w, cols, D, lost, B, src, R0, R, first, 0, pos + w)
  {
    forall q | first <= q < first + w
      ensures CodingRow(good, cols, D, lost, B[src + (q - first)], R[q], pos + w)
    {
      SkipColumns(good, cols, D, lost, B[src + (q - first)], R[q], pos, w);
    }
  }

  // What the loops below only read.
  ghost predicate Fixable(good: bool, k: nat, w: nat, D: seq<seq<bool>>, ids: seq<nat>, ddf: nat, top: nat,
                          bitmatrix: array2<bool>, rdm: array2<bool>, first: nat, src: nat, R0: seq<seq<bool>>)
    requires 0 < w
  {
    && bitmatrix != rdm && rdm.Length1 == bitmatrix.Length1
    && top <= first && first + w <= rdm.Length0 == |R0| && src + w <= bitmatrix.Length0
    && Column(w, ddf, 0, top) && k + ddf <= |ids|
    && forall q | 0 <= q < top :: DataRow(good, w, k, bitmatrix.Length1, D, ids, R0, q)
  }

  /** The yucky part, for one lost coding device. */
  method FixCodingBlock(k: nat, m: nat, w: nat, bitmatrix: array2<bool>, rdm: array2<bool>, rowIds: array<int>,
                        indToRow: array<int>, first: nat, src: nat, ghost good: bool, ghost D: seq<seq<bool>>,
                        ghost ids: seq<nat>, ghost ddf: nat, ghost top: nat, ghost R0: seq<seq<bool>>)
    requires 0 < w && Shape(k, m, w, bitmatrix.Length1, bitmatrix.Length0)
    requires bitmatrix != rdm && Fixable(good, k, w, D, ids, ddf, top, bitmatrix, rdm, first, src, R0)
    requires k <= rowIds.Length && k <= |ids| && (forall i | 0 <= i < k :: rowIds[i] == ids[i])
    requires FindsLost(k, ids, indToRow, ddf)
    requires BlockAt(good, w, bitmatrix.Length1, D, LostColumns(w, bitmatrix.Length1, ids), Rows(bitmatrix), src, R0,
                     Rows(rdm), first, 0, 0)
    modifies rdm
    ensures BlockAt(good, w, bitmatrix.Length1, D, LostColumns(w, bitmatrix.Length1, ids), Rows(bitmatrix), src, R0,
                    Rows(rdm), first, 0, bitmatrix.Length1)
  {
    hide Rows, Shape, Column, LostColumns, BlockAt, Fixable;
    ghost var cols, B := bitmatrix.Length1, Rows(bitmatrix);
    ghost var lost := LostColumns(w, cols, ids);
    var pos := 0;
    ColumnStart(w, 0, 0);
    for i := 0 to k
      invariant Column(w, i, 0, pos) && pos <= cols
      invariant BlockAt(good, w, cols, D, lost, B, src, R0, Rows(rdm), first, 0, pos)
    {
      BlockColumns(k, m, w, cols, bitmatrix.Length0, ids, i, pos);
      if rowIds[i] != i {
        var p := indToRow[i];
        var fix0 := (p - k) * w;
        ColumnIntro(w, p - k, fix0);
        FixBlockColumns(k, w, bitmatrix, rdm, first, src, i, p, fix0, pos, good, D, ids, ddf, top, lost, R0);
      } else {
        BlockSkip(good, w, cols, D, lost, B, src, R0, Rows(rdm), first, pos);
      }
      pos := pos + w;
    }
    AllRowsSet(k, m, w, cols, bitmatrix.Length0, pos);
  }

  // The columns of one lost data device, in every row of the block.
  method FixBlockColumns(k: nat, w: nat, bitmatrix: array2<bool>, rdm: array2<bool>, first: nat, src: nat, i: nat,
                         p: nat, fix0: nat, pos: nat, ghost good: bool, ghost D: seq<seq<bool>>, ghost ids: seq<nat>,
                         ghost ddf: nat, ghost top: nat, ghost lost: seq<bool>, ghost R0: seq<seq<bool>>)
    requires 0 < w && Fixable(good, k, w, D, ids, ddf, top, bitmatrix, rdm, first, src, R0)
    requires Fixes(k, w, ids, ddf, i, p, fix0, pos, lost, bitmatrix.Length1)
    requires BlockAt(good, w, bitmatrix.Length1, D, lost, Rows(bitmatrix), src, R0, Rows(rdm), first, 0, pos)
    modifies rdm
    ensures BlockAt(good, w, bitmatrix.Length1, D, lost, Rows(bitmatrix), src, R0, Rows(rdm), first, 0, pos + w)
  {
    ghost var cols, B := bitmatrix.Length1, Rows(bitmatrix);
    hide Rows, BlockAt, Fixable, Fixes;
    for j := 0 to w
      invariant BlockAt(good, w, cols, D, lost, B, src, R0, Rows(rdm), first, j, pos)
    {
      FixRowInPlace(k, w, bitmatrix, rdm, first, src, j, i, p, fix0, pos, good, D, ids, ddf, top, lost, R0);
    }
    BlockRow(good, w, cols, D, lost, B, src, R0, Rows(rdm), first, w, pos);
  }

  // Pointer p is the one of the lost data device i, whose columns start at pos.
  ghost predicate Fixes(k: nat, w: nat, ids: seq<nat>, ddf: nat, i: nat, p: nat, fix0: nat, pos: nat, lost: seq<bool>,
                        cols: nat)
  {
    && k <= p < k + ddf && p < |ids| && ids[p] == i
    && Column(w, p - k, 0, fix0) && Column(w, i, 0, pos) && pos + w <= cols == |lost|
    && forall c | pos <= c < pos + w :: lost[c]
  }

  method XorWhenSet(bitmatrix: array2<bool>, s: nat, c: nat, rdm: array2<bool>, r: nat, f: nat)
    requires s < bitmatrix.Length0 && c < bitmatrix.Length1 && r < rdm.Length0 && f < rdm.Length0 && r != f
    requires bitmatrix != rdm
    modifies rdm
    ensures Rows(rdm) == old(Rows(rdm))[r :=
      if Rows(bitmatrix)[s][c] then AddScaled(F2, old(Rows(rdm))[r], true, old(Rows(rdm))[f]) else old(Rows(rdm))[r]]
  {
    if bitmatrix[s, c] {
      XorBits(rdm, r, f);
    }
  }

  // ... in one of them.
  method FixRowInPlace(k: nat, w: nat, bitmatrix: array2<bool>, rdm: array2<bool>, first: nat, src: nat, j: nat, i: nat,
                       p: nat, fix0: nat, pos: nat, ghost good: bool, ghost D: seq<seq<bool>>, ghost ids: seq<nat>,
                       ghost ddf: nat, ghost top: nat, ghost lost: seq<bool>, ghost R0: seq<seq<bool>>)
    requires 0 < w && j < w && Fixable(good, k, w, D, ids, ddf, top, bitmatrix, rdm, first, src, R0)
    requires Fixes(k, w, ids, ddf, i, p, fix0, pos, lost, bitmatrix.Length1)
    requires BlockAt(good, w, bitmatrix.Length1, D, lost, Rows(bitmatrix), src, R0, Rows(rdm), first, j, pos)
    modifies rdm
    ensures BlockAt(good, w, bitmatrix.Length1, D, lost, Rows(bitmatrix), src, R0, Rows(rdm), first, j + 1, pos)
  {
    hide Rows, Column, DataRow, CodingRow, BlockAt, AddScaled;
    ghost var cols, B, R1 := bitmatrix.Length1, Rows(bitmatrix), Rows(rdm);
    var r, s := first + j, src + j;
    BlockKeepsData(good, w, k, cols, D, ids, lost, B, src, R0, R1, first, j, pos, top);
    BlockRow(good, w, cols, D, lost, B, src, R0, R1, first, j, pos);
    for y := 0 to w
      invariant forall q | 0 <= q < rdm.Length0 && q != r :: Rows(rdm)[q] == R1[q]
      invariant CodingRow(good, cols, D, lost, B[s], Rows(rdm)[r], pos + y)
    {
      FixStep(good, w, k, cols, D, ids, R1, ddf, top, i, p, y, fix0, pos, lost, B[s], Rows(rdm)[r]);
      XorWhenSet(bitmatrix, s, pos + y, rdm, r, fix0 + y);
    }
    BlockNextRow(good, w, cols, D, lost, B, src, R0, R1, Rows(rdm), first, j, pos);
  }

  lemma BlockKeepsData(good: bool, w: nat, k: nat, cols: nat, D: seq<seq<bool>>, ids: seq<nat>, lost: seq<bool>,
                       B: seq<seq<bool>>, src: nat, R0: seq<seq<bool>>, R: seq<seq<bool>>, first: nat, j: nat, pos: nat,
                       top: nat)
    requires 0 < w && top <= first && BlockAt(good, w, cols, D, lost, B, src, R0, R, first, j, pos)
    requires forall q | 0 <= q < top :: DataRow(good, w, k, cols, D, ids, R0, q)
    ensures forall q | 0 <= q < top :: DataRow(good, w, k, cols, D, ids, R, q)
  {
    DataRowsKept(good, w, k, cols, D, ids, R0, R, top);
  }

  // When the survivors determine the data, row q recovers the packet it is for.
  ghost predicate RowDone(good: bool, w: nat, k: nat, cols: nat, B: seq<seq<bool>>, D: seq<seq<bool>>, ids: seq<nat>,
                          R: seq<seq<bool>>, q: nat)
    requires 0 < w && IsBitmatrix(B, |B|, cols)
  {
    && HasTarget(w, k, ids, q) && q < |R|
    && (good ==> Recovers(cols, D, R[q], Generator(cols, B, Target(w, k, ids, q))))
  }

  lemma DataRowDone(good: bool, w: nat, k: nat, cols: nat, B: seq<seq<bool>>, D: seq<seq<bool>>, ids: seq<nat>,
                    R: seq<seq<bool>>, top: nat)
    requires 0 < w && IsBitmatrix(B, |B|, cols)
    requires forall q | 0 <= q < top :: DataRow(good, w, k, cols, D, ids, R, q)
    ensures forall q | 0 <= q < top :: RowDone(good, w, k, cols, B, D, ids, R, q)
  {
    forall q | 0 <= q < top
      ensures RowDone(good, w, k, cols, B, D, ids, R, q)
    {
      assert DataRow(good, w, k, cols, D, ids, R, q);
    }
  }

  // Row q of the survivor matrix is a unit row unless its column is lost.
  lemma UnitColumns(k: nat, m: nat, w: nat, cols: nat, B: seq<seq<bool>>, ids: seq<nat>)
    requires 0 < w && Shape(k, m, w, cols, |B|) && IsBitmatrix(B, |B|, cols) && k <= |ids|
    ensures forall c | 0 <= c < cols && !LostColumns(w, cols, ids)[c] ::
      SurvivorMatrix(w, cols, B, ids)[c] == UnitVec(F2, cols, c)
  {
    forall c | 0 <= c < cols && !LostColumns(w, cols, ids)[c]
      ensures SurvivorMatrix(w, cols, B, ids)[c] == UnitVec(F2, cols, c)
    {
      DataDevice(k, m, w, cols, |B|, c);
      assert c == c / w * w + c % w;
      assert Pos(w, c / w, c % w) == c;
    }
  }

  lemma StartedBlock(good: bool, k: nat, m: nat, w: nat, cols: nat, B: seq<seq<bool>>, ids: seq<nat>, src: nat,
                     R0: seq<seq<bool>>, R: seq<seq<bool>>, first: nat)
    requires 0 < w && Shape(k, m, w, cols, |B|) && IsBitmatrix(B, |B|, cols) && k <= |ids|
    requires first + w <= |R| && src + w <= |B| && OnlyBlock(R0, R, first, w)
    requires forall q | first <= q < first + w :: R[q] == Masked(LostColumns(w, cols, ids), B[src + (q - first)], 0)
    ensures BlockAt(good, w, cols, SurvivorMatrix(w, cols, B, ids), LostColumns(w, cols, ids), B, src, R0, R, first, 0,
                    0)
  {
    var lost, D := LostColumns(w, cols, ids), SurvivorMatrix(w, cols, B, ids);
    UnitColumns(k, m, w, cols, B, ids);
    forall q | first <= q < first + w
      ensures CodingRow(good, cols, D, lost, B[src + (q - first)], R[q], 0)
    {
      MaskStart(cols, D, lost, B[src + (q - first)]);
    }
  }

  // A finished block recovers its coding device.
  lemma BlockDone(good: bool, k: nat, m: nat, w: nat, cols: nat, B: seq<seq<bool>>, D: seq<seq<bool>>, lost: seq<bool>,
                  ids: seq<nat>, src: nat, R0: seq<seq<bool>>, R: seq<seq<bool>>, first: nat, x: nat)
    requires 0 < w && Shape(k, m, w, cols, |B|) && IsBitmatrix(B, |B|, cols)
    requires BlockAt(good, w, cols, D, lost, B, src, R0, R, first, 0, cols)
    requires Column(w, x, 0, first) && k + x < |ids| && k <= ids[k + x] < k + m && Column(w, ids[k + x] - k, 0, src)
    requires forall q | 0 <= q < first :: RowDone(good, w, k, cols, B, D, ids, R0, q)
    ensures forall q | 0 <= q < first + w :: RowDone(good, w, k, cols, B, D, ids, R, q)
  {
    forall q | 0 <= q < first + w
      ensures RowDone(good, w, k, cols, B, D, ids, R, q)
    {
      if q < first {
        assert RowDone(good, w, k, cols, B, D, ids, R0, q);
      } else {
        var y := q - first;
        assert CodingRow(good, cols, D, lost, B[src + (q - first)], R[q], cols);
        MaskDone(lost, B[src + y]);
        TargetIs(w, k, ids, x, y, q);
        GeneratorRow(k, m, w, cols, B, ids[k + x], y, src);
      }
    }
  }

  lemma ColumnOrder(w: nat, x: nat, a: nat, y: nat, b: nat)
    requires Column(w, x, 0, a) && Column(w, y, 0, b) && x <= y
    ensures a <= b
  {
    MulMonotone(x, y, w);
  }

  lemma DriveRows(k: nat, m: nat, w: nat, cols: nat, rows: nat, d: nat, src: nat)
    requires Shape(k, m, w, cols, rows) && k <= d < k + m && Column(w, d - k, 0, src)
    ensures src + w <= rows
  {
    MulNext(d - k, m, w);
  }

  /** The rows for the lost coding devices, block by block. */
  method BuildCodingRows(k: nat, m: nat, w: nat, bitmatrix: array2<bool>, rdm: array2<bool>, rowIds: array<int>,
                         indToRow: array<int>, ddf: nat, cdf: nat, top: nat, ghost good: bool, ghost ids: seq<nat>)
    requires 0 < w && Shape(k, m, w, bitmatrix.Length1, bitmatrix.Length0) && bitmatrix != rdm
    requires rdm.Length1 == bitmatrix.Length1
    requires Column(w, ddf, 0, top) && Column(w, ddf + cdf, 0, rdm.Length0) && |ids| == k + ddf + cdf
    requires rowIds.Length >= |ids| && (forall x | 0 <= x < |ids| :: rowIds[x] == ids[x] < k + m)
    requires forall x | k + ddf <= x < |ids| :: ids[x] >= k
    requires FindsLost(k, ids, indToRow, ddf)
    requires forall q | 0 <= q < top ::
      DataRow(good, w, k, bitmatrix.Length1, SurvivorMatrix(w, bitmatrix.Length1, Rows(bitmatrix), ids), ids, Rows(rdm),
              q)
    modifies rdm
    ensures forall q | 0 <= q < rdm.Length0 ::
      RowDone(good, w, k, bitmatrix.Length1, Rows(bitmatrix),
              SurvivorMatrix(w, bitmatrix.Length1, Rows(bitmatrix), ids), ids, Rows(rdm), q)
  {
    hide Shape, Column, LostColumns, DataRow, RowDone, BlockAt, Rows, SurvivorMatrix;
    ghost var cols, B := bitmatrix.Length1, Rows(bitmatrix);
    ghost var D := SurvivorMatrix(w, cols, B, ids);
    DataRowDone(good, w, k, cols, B, D, ids, Rows(rdm), top);
    ColumnOrder(w, ddf, top, ddf + cdf, rdm.Length0);
    var first: nat := top;
    for x := 0 to cdf
      invariant Column(w, ddf + x, 0, first) && top <= first <= rdm.Length0
      invariant forall q | 0 <= q < top :: DataRow(good, w, k, cols, D, ids, Rows(rdm), q)
      invariant forall q | 0 <= q < first :: RowDone(good, w, k, cols, B, D, ids, Rows(rdm), q)
    {
      assert ids[k + (ddf + x)] >= k;
      var drive := rowIds[k + ddf + x] - k;
      first := BuildCodingBlock(k, m, w, bitmatrix, rdm, rowIds, indToRow, ddf, cdf, top, x, drive, first, good, D,
                                ids);
      assert Rows(bitmatrix) == B;
    }
    ColumnEnd(w, ddf + cdf, first, ddf + cdf, rdm.Length0);
  }

  method BuildCodingBlock(k: nat, m: nat, w: nat, bitmatrix: array2<bool>, rdm: array2<bool>, rowIds: array<int>,
                          indToRow: array<int>, ddf: nat, cdf: nat, top: nat, x: nat, drive: nat, first: nat,
                          ghost good: bool, ghost D: seq<seq<bool>>, ghost ids: seq<nat>) returns (next: nat)
    requires 0 < w && Shape(k, m, w, bitmatrix.Length1, bitmatrix.Length0) && bitmatrix != rdm
    requires rdm.Length1 == bitmatrix.Length1
    requires Column(w, ddf, 0, top) && Column(w, ddf + cdf, 0, rdm.Length0) && |ids| == k + ddf + cdf
    requires rowIds.Length >= |ids| && (forall x | 0 <= x < |ids| :: rowIds[x] == ids[x] < k + m)
    requires FindsLost(k, ids, indToRow, ddf) && x < cdf && ids[k + (ddf + x)] == k + drive
    requires Column(w, ddf + x, 0, first) && top <= first
    requires D == SurvivorMatrix(w, bitmatrix.Length1, Rows(bitmatrix), ids)
    requires forall q | 0 <= q < top :: DataRow(good, w, k, bitmatrix.Length1, D, ids, Rows(rdm), q)
    requires forall q | 0 <= q < first :: RowDone(good, w, k, bitmatrix.Length1, Rows(bitmatrix), D, ids, Rows(rdm), q)
    modifies rdm
    ensures next == first + w <= rdm.Length0 && Column(w, ddf + (x + 1), 0, next)
    ensures forall q | 0 <= q < top :: DataRow(good, w, k, bitmatrix.Length1, D, ids, Rows(rdm), q)
    ensures forall q | 0 <= q < next :: RowDone(good, w, k, bitmatrix.Length1, Rows(bitmatrix), D, ids, Rows(rdm), q)
  {
    hide Shape, Column, SurvivorMatrix, DataRow, RowDone, BlockAt, FindsLost, Rows, LostColumns;
    ghost var cols, B, R0 := bitmatrix.Length1, Rows(bitmatrix), Rows(rdm);
    ghost var lost := LostColumns(w, cols, ids);
    var src := drive * w;
    ColumnIntro(w, drive, src);
    DriveRows(k, m, w, cols, |B|, k + drive, src);
    ColumnBlock(w, ddf + x, first, ddf + cdf, rdm.Length0);
    next := first + w;
    StartCodingBlock(k, m, w, bitmatrix, rdm, rowIds, first, src, ids);
    StartedBlock(good, k, m, w, cols, B, ids, src, R0, Rows(rdm), first);
    FixCodingBlock(k, m, w, bitmatrix, rdm, rowIds, indToRow, first, src, good, D, ids, ddf, top, R0);
    BlockDone(good, k, m, w, cols, B, D, lost, ids, src, R0, Rows(rdm), first, ddf + x);
    BlockKeepsData(good, w, k, cols, D, ids, lost, B, src, R0, Rows(rdm), first, 0, cols, top);
  }

  // ---- jerasure_generate_decoding_schedule

  // The pointer arrangement for these flags, with ddf lost data and cdf lost coding devices.
  ghost predicate Arrangement(k: nat, m: nat, e: seq<bool>, ddf: nat, cdf: nat, ids: seq<nat>) {
    && |e| == k + m && Recoverable(e, k)
    && ddf == |Where(e, 0, k, true)| && cdf == |Where(e, k, k + m, true)| && ids == RowIds(e, k)
  }

  lemma ArrangementFacts(k: nat, m: nat, e: seq<bool>, ddf: nat, cdf: nat, ids: seq<nat>)
    requires Arrangement(k, m, e, ddf, cdf, ids)
    ensures |ids| == k + ddf + cdf <= k + m && forall x | 0 <= x < |ids| :: ids[x] < k + m
    ensures forall i | 0 <= i < k :: (ids[i] < k ==> ids[i] == i) && (ids[i] != i ==> e[i])
    ensures forall x | k <= x < k + ddf :: ids[x] < k
    ensures forall x | k + ddf <= x < |ids| :: ids[x] >= k
    ensures ddf == 0 ==> forall i | 0 <= i < k :: ids[i] == i
  {
    WhereCounts(e, k, k + m);
    WhereOrdered(e, 0, k, true);
    forall i | 0 <= i < k
      ensures ids[i] == StandIn(e, k, i)
    {
    }
  }

  lemma InverseGivesDataRows(w: nat, k: nat, cols: nat, D: seq<seq<bool>>, inverse: seq<seq<bool>>, ids: seq<nat>,
                             R: seq<seq<bool>>, top: nat, good: bool)
    requires 0 < w && IsMatrix(F2, D, cols, cols) && IsMatrix(F2, inverse, cols, cols)
    requires good ==> Inverses(F2, D, inverse, cols)
    requires forall q | 0 <= q < top :: InverseRow(w, k, ids, inverse, R, q)
    ensures forall q | 0 <= q < top :: DataRow(good, w, k, cols, D, ids, R, q)
  {
    forall q | 0 <= q < top
      ensures DataRow(good, w, k, cols, D, ids, R, q)
    {
      assert InverseRow(w, k, ids, inverse, R, q);
      if good {
        InverseRecovers(cols, D, inverse, Target(w, k, ids, q));
      }
    }
  }

  // The rows for the lost data devices, from the inverse of the survivor matrix.
  method BuildDataRows(k: nat, m: nat, w: nat, bitmatrix: array2<bool>, rdm: array2<bool>, rowIds: array<int>, ddf: nat,
                       cdf: nat, ghost e: seq<bool>, ghost ids: seq<nat>, ghost D: seq<seq<bool>>, ghost good: bool)
    returns (top: nat)
    requires 0 < w && Shape(k, m, w, bitmatrix.Length1, bitmatrix.Length0) && bitmatrix != rdm
    requires rdm.Length1 == bitmatrix.Length1
    requires Arrangement(k, m, e, ddf, cdf, ids) && Column(w, ddf + cdf, 0, rdm.Length0)
    requires rowIds.Length >= |ids| && forall x | 0 <= x < |ids| :: rowIds[x] == ids[x]
    requires D == SurvivorMatrix(w, bitmatrix.Length1, Rows(bitmatrix), ids)
    requires good == Nonsingular(F2, D, bitmatrix.Length1)
    modifies rdm
    ensures Column(w, ddf, 0, top)
    ensures forall q | 0 <= q < top :: DataRow(good, w, k, bitmatrix.Length1, D, ids, Rows(rdm), q)
  {
    hide Shape, Column, Arrangement, SurvivorMatrix, DataRow, Nonsingular, InverseRow;
    ArrangementFacts(k, m, e, ddf, cdf, ids);
    top := 0;
    if ddf > 0 {
      var dm := BuildSurvivorMatrix(k, m, w, bitmatrix, rowIds, ids);
      var inverse := new bool[bitmatrix.Length1, bitmatrix.Length1];
      var r := InvertBitmatrix(dm, inverse);
      ColumnRoom(w, ddf, cdf, rdm.Length0);
      top := CopyInverseRows(k, m, w, inverse, rdm, rowIds, ddf, ids, bitmatrix.Length0);
      InverseGivesDataRows(w, k, bitmatrix.Length1, D, Rows(inverse), ids, Rows(rdm), top, good);
    } else {
      ColumnStart(w, 0, 0);
    }
  }

  lemma ColumnRoom(w: nat, ddf: nat, cdf: nat, rows: nat)
    requires Column(w, ddf + cdf, 0, rows)
    ensures ddf * w <= rows
  {
    MulMonotone(ddf, ddf + cdf, w);
  }

  lemma FindsTheLost(k: nat, m: nat, e: seq<bool>, ddf: nat, cdf: nat, ids: seq<nat>, rowIds: array<int>,
                     indToRow: array<int>)
    requires Arrangement(k, m, e, ddf, cdf, ids) && IdsUpTo(rowIds, indToRow, e, k, k, |ids|, |e|)
    ensures FindsLost(k, ids, indToRow, ddf)
  {
    ArrangementFacts(k, m, e, ddf, cdf, ids);
  }

  /** The matrix that decodes everything with one call: w rows for every lost device. */
  method BuildDecodingMatrix(k: nat, m: nat, w: nat, bitmatrix: array2<bool>, rowIds: array<int>, indToRow: array<int>,
                             ddf: nat, cdf: nat, ghost e: seq<bool>, ghost ids: seq<nat>, ghost D: seq<seq<bool>>)
    returns (rdm: array2<bool>)
    requires 0 < w && Shape(k, m, w, bitmatrix.Length1, bitmatrix.Length0)
    requires Arrangement(k, m, e, ddf, cdf, ids) && IdsUpTo(rowIds, indToRow, e, k, k, |ids|, |e|)
    requires D == SurvivorMatrix(w, bitmatrix.Length1, Rows(bitmatrix), ids)
    ensures fresh(rdm) && rdm.Length1 == bitmatrix.Length1 && Column(w, ddf + cdf, 0, rdm.Length0)
    ensures forall q | 0 <= q < rdm.Length0 ::
      RowDone(Nonsingular(F2, D, bitmatrix.Length1), w, k, bitmatrix.Length1, Rows(bitmatrix), D, ids, Rows(rdm), q)
  {
    hide Shape, Column, SurvivorMatrix, DataRow, RowDone, Nonsingular, FindsLost, RowIds, Where;
    ArrangementFacts(k, m, e, ddf, cdf, ids);
    FindsTheLost(k, m, e, ddf, cdf, ids, rowIds, indToRow);
    var rows := (ddf + cdf) * w;
    ColumnIntro(w, ddf + cdf, rows);
    rdm := new bool[rows, bitmatrix.Length1];
    ghost var good := Nonsingular(F2, D, bitmatrix.Length1);
    var top := BuildDataRows(k, m, w, bitmatrix, rdm, rowIds, ddf, cdf, e, ids, D, good);
    BuildCodingRows(k, m, w, bitmatrix, rdm, rowIds, indToRow, ddf, cdf, top, good, ids);
  }

  // No packet of a lost coding device is zero whatever the data.
  ghost predicate NonzeroRows(w: nat, k: nat, cols: nat, B: seq<seq<bool>>, e: seq<bool>)
    requires IsBitmatrix(B, |B|, cols)
  {
    forall d, y | k <= d < |e| && e[d] && 0 <= y < w :: Ones(Generator(cols, B, Pos(w, d, y)), cols) > 0
  }

  // The surviving devices determine the data.
  ghost predicate Decodable(w: nat, k: nat, cols: nat, B: seq<seq<bool>>, e: seq<bool>)
    requires 0 < w && IsBitmatrix(B, |B|, cols)
  {
    Recoverable(e, k) && Nonsingular(F2, SurvivorMatrix(w, cols, B, RowIds(e, k)), cols)
  }

  /** Running R as an encoding matrix decodes the devices flagged in e. */
  ghost predicate DecodingMatrix(k: nat, m: nat, w: nat, cols: nat, B: seq<seq<bool>>, e: seq<bool>, R: seq<seq<bool>>)
    requires 0 < w && IsBitmatrix(B, |B|, cols)
  {
    && |e| == k + m && Recoverable(e, k)
    && IsBitmatrix(R, |R|, cols) && Shape(k, |RowIds(e, k)| - k, w, cols, |R|)
    && (Decodable(w, k, cols, B, e) ==> forall r | 0 <= r < |R| :: DecodesRow(w, k, cols, B, RowIds(e, k), R, r))
  }

  ghost predicate DecodingSchedule(k: nat, m: nat, w: nat, cols: nat, B: seq<seq<bool>>, e: seq<bool>,
                                   R: seq<seq<bool>>, ops: seq<Op>)
    requires 0 < w && IsBitmatrix(B, |B|, cols)
  {
    DecodingMatrix(k, m, w, cols, B, e, R) && Computes(|RowIds(e, k)|, w, cols, R, ops)
  }

  lemma DoneRowsDecode(w: nat, k: nat, cols: nat, B: seq<seq<bool>>, ids: seq<nat>, R: seq<seq<bool>>)
    requires 0 < w && IsBitmatrix(B, |B|, cols)
    requires forall q | 0 <= q < |R| :: RowDone(true, w, k, cols, B, SurvivorMatrix(w, cols, B, ids), ids, R, q)
    ensures forall q | 0 <= q < |R| :: DecodesRow(w, k, cols, B, ids, R, q)
  {
    forall q | 0 <= q < |R|
      ensures DecodesRow(w, k, cols, B, ids, R, q)
    {
      assert RowDone(true, w, k, cols, B, SurvivorMatrix(w, cols, B, ids), ids, R, q);
    }
  }

  lemma TargetDevice(w: nat, k: nat, ids: seq<nat>, q: nat) returns (x: nat, y: nat)
    requires 0 < w && HasTarget(w, k, ids, q)
    ensures k <= x < |ids| && y < w && Target(w, k, ids, q) == Pos(w, ids[x], y)
  {
    x, y := k + q / w, q % w;
  }

  lemma TargetNonzero(k: nat, m: nat, w: nat, cols: nat, B: seq<seq<bool>>, e: seq<bool>, ddf: nat, cdf: nat,
                      ids: seq<nat>, q: nat)
    requires 0 < w && Shape(k, m, w, cols, |B|) && IsBitmatrix(B, |B|, cols) && Arrangement(k, m, e, ddf, cdf, ids)
    requires NonzeroRows(w, k, cols, B, e) && HasTarget(w, k, ids, q)
    ensures Ones(Generator(cols, B, Target(w, k, ids, q)), cols) > 0
  {
    hide Shape, Arrangement, HasTarget, Target, Pos, Generator;
    ArrangementFacts(k, m, e, ddf, cdf, ids);
    var x, y := TargetDevice(w, k, ids, q);
    var d := ids[x];
    GeneratorRow(k, m, w, cols, B, d, y, 0);
    if d < k {
      UnitHasOne(cols, Pos(w, d, y), cols);
    } else {
      LostCoding(k, m, e, ddf, cdf, ids, x);
    }
  }

  lemma LostCoding(k: nat, m: nat, e: seq<bool>, ddf: nat, cdf: nat, ids: seq<nat>, x: nat)
    requires Arrangement(k, m, e, ddf, cdf, ids) && k <= x < |ids|
    ensures ids[x] < |e| && e[ids[x]]
  {
  }

  method GenerateDecodingMatrix(k: nat, m: nat, w: nat, bitmatrix: array2<bool>, rowIds: array<int>,
                                indToRow: array<int>, ddf: nat, cdf: nat, ghost e: seq<bool>)
    returns (rdm: array2<bool>)
    requires 0 < w && Shape(k, m, w, bitmatrix.Length1, bitmatrix.Length0)
    requires |e| == k + m && Recoverable(e, k) && IdsUpTo(rowIds, indToRow, e, k, k, |RowIds(e, k)|, |e|)
    requires ddf == |Where(e, 0, k, true)| && cdf == |Where(e, k, k + m, true)|
    ensures fresh(rdm) && rdm.Length1 == bitmatrix.Length1
    ensures ddf + cdf > 0 ==> rdm.Length0 > 0
    ensures |RowIds(e, k)| == k + ddf + cdf
    ensures DecodingMatrix(k, m, w, bitmatrix.Length1, Rows(bitmatrix), e, Rows(rdm))
  {
    hide Shape, Column, RowDone, Nonsingular, SurvivorMatrix, RowIds, DecodesRow, Recoverable, Where, Generator,
         Recovers, IdsUpTo;
    ghost var cols, B := bitmatrix.Length1, Rows(bitmatrix);
    ghost var ids := RowIds(e, k);
    ghost var D := SurvivorMatrix(w, cols, B, ids);
    rdm := BuildDecodingMatrix(k, m, w, bitmatrix, rowIds, indToRow, ddf, cdf, e, ids, D);
    ShapeOf(k, ddf + cdf, w, cols, rdm.Length0, m, bitmatrix.Length0);
    if ddf + cdf > 0 {
      ColumnPositive(w, ddf + cdf, rdm.Length0);
    }
    assert Rows(bitmatrix) == B;
    if Decodable(w, k, cols, B, e) {
      DoneRowsDecode(w, k, cols, B, ids, Rows(rdm));
    }
  }

  /** jerasure_generate_decoding_schedule: null when too many devices are lost. */
  method GenerateDecodingSchedule(k: nat, m: nat, w: nat, bitmatrix: array2<bool>, erasures: seq<nat>, smart: bool)
    returns (operations: array?<Op>, ghost R: seq<seq<bool>>, ghost ops: seq<Op>)
    requires 0 < w && Shape(k, m, w, bitmatrix.Length1, bitmatrix.Length0)
    requires NoRepeats(erasures) && forall i | 0 <= i < |erasures| :: erasures[i] < k + m
    requires smart ==> |erasures| > 0
    ensures operations == null <==> |erasures| > m
    ensures operations != null ==> fresh(operations) && IsSchedule(operations, ops)
    ensures operations != null ==>
      DecodingSchedule(k, m, w, bitmatrix.Length1, Rows(bitmatrix), FlagsOf(k + m, erasures), R, ops)
  {
    hide Shape, RowIds, Computes, Recoverable, Where, CountBelow, FlagsOf, IdsUpTo, Flags, Elements, Decodable,
         DecodesRow, PlanCost, Acyclic, TotalOnes;
    CountsMatch(k, m, erasures);
    var ddf, cdf := CountErasures(k, erasures);
    R, ops := [], [];
    var rowIds, indToRow := new int[k + m], new int[k + m];
    var found := SetUpIds(k, m, erasures, rowIds, indToRow);
    if found < 0 {
      return null, R, ops;
    }
    var rdm := GenerateDecodingMatrix(k, m, w, bitmatrix, rowIds, indToRow, ddf, cdf, FlagsOf(k + m, erasures));
    R := Rows(rdm);
    if smart {
      operations, ops := SmartBitmatrixToSchedule(k, ddf + cdf, w, rdm);
    } else {
      operations, ops := DumbBitmatrixToSchedule(k, ddf + cdf, w, rdm);
    }
  }

  lemma ShapeOf(k: nat, x: nat, w: nat, cols: nat, rows: nat, m: nat, all: nat)
    requires Shape(k, m, w, cols, all) && Column(w, x, 0, rows)
    ensures Shape(k, x, w, cols, rows)
  {
  }

  lemma ColumnPositive(w: nat, x: nat, rows: nat)
    requires Column(w, x, 0, rows) && 0 < w && 0 < x
    ensures 0 < rows
  {
    MulMonotone(1, x, w);
  }
}

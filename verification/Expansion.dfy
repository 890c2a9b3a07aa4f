/** From a matrix over GF(2^w) to a bitmatrix (jerasure.c). The block of element e has the bits of e * 2^x in
    column x, so the block times the bits of d is the bits of e * d, and a code that any k devices decode stays
    one. */
module Expansion {
  import opened Arithmetic
  import opened Fields
  import opened LinearAlgebra
  import opened Elimination
  import opened Schedules
  import opened Encoders
  import opened Erasures
  import opened DecodingTheory
  import opened ScheduledDecoding
  import opened Galois
  import opened LogTables
  import opened MatrixDecoding
  import opened Independence
  import RaidSix

  // Bit (l, x) of the block of e.
  ghost predicate BlockBit(g: seq<bool>, e: seq<bool>, l: nat, x: nat)
    requires |e| == |g| && l < |g|
  {
    Doubled(g, e, x)[l]
  }

  ghost predicate BitAt(g: seq<bool>, k: nat, C: seq<seq<seq<bool>>>, r: nat, c: nat)
    requires |g| > 0 && IsMatrix(GF(g), C, |C|, k)
  {
    r / |g| < |C| && c / |g| < k && ElementBit(g, k, C, r / |g|, c / |g|, r % |g|, c % |g|)
  }

  ghost predicate ElementBit(g: seq<bool>, k: nat, C: seq<seq<seq<bool>>>, i: nat, j: nat, l: nat, x: nat)
    requires |g| > 0 && IsMatrix(GF(g), C, |C|, k) && i < |C| && j < k && l < |g|
  {
    assert IsVec(GF(g), C[i], k);
    BlockBit(g, C[i][j], l, x)
  }

  ghost function Expanded(g: seq<bool>, k: nat, C: seq<seq<seq<bool>>>, rows: nat, cols: nat): (B: seq<seq<bool>>)
    requires |g| > 0 && IsMatrix(GF(g), C, |C|, k)
    ensures IsBitmatrix(B, rows, cols)
  {
    seq(rows, r requires 0 <= r < rows => seq(cols, c requires 0 <= c < cols => BitAt(g, k, C, r, c)))
  }

  lemma ExpandedBit(g: seq<bool>, k: nat, C: seq<seq<seq<bool>>>, rows: nat, cols: nat, i: nat, l: nat, r: nat, j: nat,
                    x: nat, c: nat)
    requires |g| > 0 && IsMatrix(GF(g), C, |C|, k) && i < |C| && j < k && l < |g| && x < |g|
    requires Column(|g|, |C|, 0, rows) && Column(|g|, k, 0, cols) && Column(|g|, i, l, r) && Column(|g|, j, x, c)
    ensures r < rows && c < cols && Expanded(g, k, C, rows, cols)[r][c] == ElementBit(g, k, C, i, j, l, x)
  {
    ColumnNext(|C|, |g|, i, l, r, rows);
    ColumnNext(k, |g|, j, x, c, cols);
  }

  // ---- The method.

  // Column x of the block of elt at (i, j): its bits.
  method SetColumn(g: seq<bool>, elt: seq<bool>, bitmatrix: array2<bool>, rowIndex: nat, col: nat)
    requires |elt| == |g| && rowIndex + |g| <= bitmatrix.Length0 && col < bitmatrix.Length1
    modifies bitmatrix
    ensures forall r, c | 0 <= r < bitmatrix.Length0 && 0 <= c < bitmatrix.Length1 ::
      bitmatrix[r, c] == if rowIndex <= r < rowIndex + |g| && c == col then elt[r - rowIndex] else old(bitmatrix[r, c])
  {
    for l := 0 to |g|
      invariant forall r, c | 0 <= r < bitmatrix.Length0 && 0 <= c < bitmatrix.Length1 ::
        bitmatrix[r, c] == if rowIndex <= r < rowIndex + l && c == col then elt[r - rowIndex] else old(bitmatrix[r, c])
    {
      bitmatrix[rowIndex + l, col] := elt[l];
    }
  }

  // What is in place: the rows before row i of the matrix, and columns before c of row i.
  ghost predicate ExpandedTo(g: seq<bool>, k: nat, C: seq<seq<seq<bool>>>, bits: seq<seq<bool>>, first: nat, c: nat)
    requires |g| > 0 && IsMatrix(GF(g), C, |C|, k)
  {
    forall r, c' | 0 <= r < |bits| && 0 <= c' < |bits[r]| &&
        (r < first || (r < first + |g| && c' < c)) :: bits[r][c'] == BitAt(g, k, C, r, c')
  }

  lemma ColumnBits(g: seq<bool>, k: nat, C: seq<seq<seq<bool>>>, bits: seq<seq<bool>>, bits': seq<seq<bool>>,
                   rows: nat, cols: nat, i: nat, first: nat, j: nat, x: nat, c: nat, elt: seq<bool>)
    requires |g| > 0 && IsMatrix(GF(g), C, |C|, k) && i < |C| && j < k && x < |g| && |C[i]| == k && |C[i][j]| == |g|
    requires Column(|g|, |C|, 0, rows) && Column(|g|, k, 0, cols) && Column(|g|, i, 0, first) && Column(|g|, j, x, c)
    requires IsBitmatrix(bits, rows, cols) && IsBitmatrix(bits', rows, cols) && elt == Doubled(g, C[i][j], x)
    requires first + |g| <= rows
    requires ExpandedTo(g, k, C, bits, first, c)
    requires forall r, c' | 0 <= r < rows && 0 <= c' < cols ::
      bits'[r][c'] == if first <= r < first + |g| && c' == c then elt[r - first] else bits[r][c']
    ensures ExpandedTo(g, k, C, bits', first, c + 1)
  {
    hide Column, BitAt;
    forall r, c' | 0 <= r < rows && 0 <= c' < cols && (r < first || (r < first + |g| && c' < c + 1))
      ensures bits'[r][c'] == BitAt(g, k, C, r, c')
    {
      if first <= r && c' == c {
        ColumnOffset(|g|, i, first, r);
        BitInBlock(g, k, C, rows, cols, i, r - first, r, j, x, c);
      }
    }
  }

  lemma ColumnOffset(w: nat, i: nat, first: nat, r: nat)
    requires Column(w, i, 0, first) && first <= r
    ensures Column(w, i, r - first, r)
  {
  }

  lemma BitInBlock(g: seq<bool>, k: nat, C: seq<seq<seq<bool>>>, rows: nat, cols: nat, i: nat, l: nat, r: nat, j: nat,
                   x: nat, c: nat)
    requires |g| > 0 && IsMatrix(GF(g), C, |C|, k) && i < |C| && j < k && l < |g| && x < |g| && |C[i]| == k
    requires |C[i][j]| == |g|
    requires Column(|g|, |C|, 0, rows) && Column(|g|, k, 0, cols) && Column(|g|, i, l, r) && Column(|g|, j, x, c)
    ensures BitAt(g, k, C, r, c) == Doubled(g, C[i][j], x)[l]
  {
    ColumnNext(|C|, |g|, i, l, r, rows);
    ColumnNext(k, |g|, j, x, c, cols);
  }

  // elt times 2; when w is 1 the element is not used again.
  lemma TimesTwo(g: seq<bool>, elt: seq<bool>)
    requires |elt| == |g| > 1
    ensures Mul(g, elt, Basis(|g|, 1)) == Double(g, elt)
  {
    DoubledOne(g, 1);
    MulDoubled(g, elt, One(|g|), 1);
    MulOne(g, elt);
    assert Doubled(g, elt, 1) == Double(g, Doubled(g, elt, 0));
  }

  method SetBlock(g: seq<bool>, k: nat, elt0: seq<bool>, bitmatrix: array2<bool>, rowIndex: nat, colIndex: nat,
                  ghost C: seq<seq<seq<bool>>>, ghost i: nat, ghost j: nat)
    requires |g| > 0 && IsMatrix(GF(g), C, |C|, k) && i < |C| && j < k && |C[i]| == k && elt0 == C[i][j]
    requires |elt0| == |g|
    requires Column(|g|, |C|, 0, bitmatrix.Length0) && Column(|g|, k, 0, bitmatrix.Length1)
    requires Column(|g|, i, 0, rowIndex) && Column(|g|, j, 0, colIndex)
    requires ExpandedTo(g, k, C, Rows(bitmatrix), rowIndex, colIndex)
    modifies bitmatrix
    ensures ExpandedTo(g, k, C, Rows(bitmatrix), rowIndex, colIndex + |g|)
  {
    hide Column, ExpandedTo, Mul, Double;
    var w := |g|;
    ghost var rows, cols := bitmatrix.Length0, bitmatrix.Length1;
    BlockInside(w, |C|, i, rowIndex, rows);
    BlockInside(w, k, j, colIndex, cols);
    var elt := elt0;
    for x := 0 to w
      invariant x < w ==> elt == Doubled(g, elt0, x)
      invariant ExpandedTo(g, k, C, Rows(bitmatrix), rowIndex, colIndex + x)
    {
      ghost var was := Rows(bitmatrix);
      ColumnOffset(w, j, colIndex, colIndex + x);
      SetColumn(g, elt, bitmatrix, rowIndex, colIndex + x);
      ColumnBits(g, k, C, was, Rows(bitmatrix), rows, cols, i, rowIndex, j, x, colIndex + x, elt);
      if w > 1 {
        TimesTwo(g, elt);
      }
      elt := Mul(g, elt, Basis(w, 1));
    }
  }

  lemma BlockInside(w: nat, n: nat, i: nat, first: nat, total: nat)
    requires i < n && Column(w, i, 0, first) && Column(w, n, 0, total)
    ensures first + w <= total && Column(w, i + 1, 0, first + w)
  {
    MulNext(i, n, w);
  }

  lemma NextRowExpanded(g: seq<bool>, k: nat, C: seq<seq<seq<bool>>>, bits: seq<seq<bool>>, first: nat, c: nat)
    requires |g| > 0 && IsMatrix(GF(g), C, |C|, k)
    requires ExpandedTo(g, k, C, bits, first, c) && forall r | 0 <= r < |bits| :: |bits[r]| <= c
    ensures ExpandedTo(g, k, C, bits, first + |g|, 0)
  {
  }

  lemma EntryShape(g: seq<bool>, k: nat, C: seq<seq<seq<bool>>>, i: nat, j: nat)
    requires IsMatrix(GF(g), C, |C|, k) && i < |C| && j < k
    ensures |C[i]| == k && |C[i][j]| == |g|
  {
    assert IsVec(GF(g), C[i], k);
  }

  // The blocks of row i of the matrix.
  method SetBlockRow(g: seq<bool>, k: nat, matrix: array2<seq<bool>>, bitmatrix: array2<bool>, rowIndex: nat,
                     ghost C: seq<seq<seq<bool>>>, i: nat)
    requires |g| > 0 && matrix.Length1 == k && Rows(matrix) == C && IsMatrix(GF(g), C, |C|, k) && i < |C|
    requires Column(|g|, |C|, 0, bitmatrix.Length0) && Column(|g|, k, 0, bitmatrix.Length1)
    requires Column(|g|, i, 0, rowIndex)
    requires ExpandedTo(g, k, C, Rows(bitmatrix), rowIndex, 0)
    modifies bitmatrix
    ensures ExpandedTo(g, k, C, Rows(bitmatrix), rowIndex + |g|, 0)
  {
    hide Column, ExpandedTo, BitAt, GF, IsMatrix;
    var w := |g|;
    var colIndex: nat := 0;
    ColumnStart(w, 0, 0);
    for j := 0 to k
      invariant Column(w, j, 0, colIndex) && Rows(matrix) == C
      invariant ExpandedTo(g, k, C, Rows(bitmatrix), rowIndex, colIndex)
    {
      EntryShape(g, k, C, i, j);
      SetBlock(g, k, matrix[i, j], bitmatrix, rowIndex, colIndex, C, i, j);
      BlockInside(w, k, j, colIndex, bitmatrix.Length1);
      colIndex := colIndex + w;
    }
    AllColumns(w, k, bitmatrix.Length1, colIndex);
    NextRowExpanded(g, k, C, Rows(bitmatrix), rowIndex, colIndex);
  }

  // Bit (l, x) of block (i, j).
  ghost predicate BlockBitAt(w: nat, bits: seq<seq<bool>>, i: nat, j: nat, l: nat, x: nat) {
    i * w + l < |bits| && j * w + x < |bits[i * w + l]| && bits[i * w + l][j * w + x]
  }

  lemma BlocksInPlace(g: seq<bool>, k: nat, m: nat, C: seq<seq<seq<bool>>>, rows: nat, cols: nat)
    requires |g| > 0 && IsMatrix(GF(g), C, |C|, k) && |C| == m
    requires Column(|g|, m, 0, rows) && Column(|g|, k, 0, cols)
    ensures forall i | 0 <= i < m :: WordVec(|g|, C[i], k)
    ensures forall i, j, l, x | 0 <= i < m && 0 <= j < k && 0 <= l < |g| && 0 <= x < |g| ::
      BlockBitAt(|g|, Expanded(g, k, C, rows, cols), i, j, l, x) == Doubled(g, C[i][j], x)[l]
  {
    hide Expanded, GF, IsMatrix, BlockBitAt, Column;
    forall i | 0 <= i < m
      ensures WordVec(|g|, C[i], k)
    {
      RowOfWords(g, k, C, i);
    }
    forall i, j, l, x | 0 <= i < m && 0 <= j < k && 0 <= l < |g| && 0 <= x < |g|
      ensures |C[i]| == k && |C[i][j]| == |g|
      ensures BlockBitAt(|g|, Expanded(g, k, C, rows, cols), i, j, l, x) == Doubled(g, C[i][j], x)[l]
    {
      BlockInPlace(g, k, C, rows, cols, i, j, l, x);
    }
  }

  lemma RowOfWords(g: seq<bool>, k: nat, C: seq<seq<seq<bool>>>, i: nat)
    requires IsMatrix(GF(g), C, |C|, k) && i < |C|
    ensures WordVec(|g|, C[i], k)
  {
    assert IsVec(GF(g), C[i], k);
  }

  lemma BlockInPlace(g: seq<bool>, k: nat, C: seq<seq<seq<bool>>>, rows: nat, cols: nat, i: nat, j: nat, l: nat, x: nat)
    requires |g| > 0 && IsMatrix(GF(g), C, |C|, k) && i < |C| && j < k && l < |g| && x < |g|
    requires Column(|g|, |C|, 0, rows) && Column(|g|, k, 0, cols)
    ensures |C[i]| == k && |C[i][j]| == |g|
    ensures BlockBitAt(|g|, Expanded(g, k, C, rows, cols), i, j, l, x) == Doubled(g, C[i][j], x)[l]
  {
    hide Expanded, Doubled;
    var r, c := i * |g| + l, j * |g| + x;
    EntryShape(g, k, C, i, j);
    ExpandedBit(g, k, C, rows, cols, i, l, r, j, x, c);
    assert Expanded(g, k, C, rows, cols)[r][c] == ElementBit(g, k, C, i, j, l, x) == BlockBit(g, C[i][j], l, x);
  }

  /** jerasure_matrix_to_bitmatrix. */
  method MatrixToBitmatrix(g: seq<bool>, k: nat, m: nat, matrix: array2<seq<bool>>) returns (bitmatrix: array2<bool>)
    requires |g| > 0 && matrix.Length0 == m && matrix.Length1 == k && IsMatrix(GF(g), Rows(matrix), m, k)
    ensures fresh(bitmatrix) && bitmatrix.Length0 == m * |g| && bitmatrix.Length1 == k * |g|
    ensures Rows(bitmatrix) == Expanded(g, k, Rows(matrix), m * |g|, k * |g|)
    ensures forall i, j | 0 <= i < m && 0 <= j < k :: |matrix[i, j]| == |g|
    ensures forall i, j, l, x | 0 <= i < m && 0 <= j < k && 0 <= l < |g| && 0 <= x < |g| ::
      BlockBitAt(|g|, Rows(bitmatrix), i, j, l, x) == Doubled(g, matrix[i, j], x)[l]
  {
    hide Column, ExpandedTo, BitAt, GF, Expanded, BlockBitAt;
    var w := |g|;
    var rows, cols := m * w, k * w;
    ghost var C := Rows(matrix);
    Extents(w, m, rows, k, cols);
    bitmatrix := new bool[rows, cols]((r, c) => false);
    var rowIndex: nat := 0;
    StartExpanded(g, k, C, Rows(bitmatrix));
    for i := 0 to m
      invariant Column(w, i, 0, rowIndex) && Rows(matrix) == C && ExpandedTo(g, k, C, Rows(bitmatrix), rowIndex, 0)
    {
      SetBlockRow(g, k, matrix, bitmatrix, rowIndex, C, i);
      BlockInside(w, m, i, rowIndex, rows);
      rowIndex := rowIndex + w;
    }
    AllColumns(w, m, rows, rowIndex);
    EndExpanded(g, k, C, Rows(bitmatrix), rows, cols);
    BlocksInPlace(g, k, m, C, rows, cols);
    forall i, j | 0 <= i < m && 0 <= j < k
      ensures matrix[i, j] == C[i][j] && |matrix[i, j]| == |g|
    {
      assert WordVec(|g|, C[i], k) && Rows(matrix)[i][j] == matrix[i, j];
    }
  }

  lemma Extents(w: nat, m: nat, rows: nat, k: nat, cols: nat)
    requires rows == m * w && cols == k * w
    ensures Column(w, m, 0, rows) && Column(w, k, 0, cols) && Column(w, 0, 0, 0)
  {
  }

  lemma AllColumns(w: nat, k: nat, cols: nat, c: nat)
    requires Column(w, k, 0, cols) && Column(w, k, 0, c)
    ensures c == cols
  {
  }

  lemma StartExpanded(g: seq<bool>, k: nat, C: seq<seq<seq<bool>>>, bits: seq<seq<bool>>)
    requires |g| > 0 && IsMatrix(GF(g), C, |C|, k)
    ensures ExpandedTo(g, k, C, bits, 0, 0)
  {
  }

  lemma EndExpanded(g: seq<bool>, k: nat, C: seq<seq<seq<bool>>>, bits: seq<seq<bool>>, rows: nat, cols: nat)
    requires |g| > 0 && IsMatrix(GF(g), C, |C|, k) && IsBitmatrix(bits, rows, cols)
    requires ExpandedTo(g, k, C, bits, rows, 0)
    ensures bits == Expanded(g, k, C, rows, cols)
  {
    forall r | 0 <= r < rows
      ensures bits[r] == Expanded(g, k, C, rows, cols)[r]
    {
    }
  }

  // ---- The expansion respects products.

  // The words whose bits are x.
  ghost function Words(w: nat, k: nat, x: seq<bool>): (d: seq<seq<bool>>)
    ensures |d| == k && forall j | 0 <= j < k :: |d[j]| == w
  {
    seq(k, j => seq(w, t => 0 <= j * w + t < |x| && x[j * w + t]))
  }

  lemma WordBit(w: nat, k: nat, cols: nat, x: seq<bool>, j: nat, t: nat, c: nat)
    requires Column(w, k, 0, cols) && |x| == cols && j < k && t < w && Column(w, j, t, c)
    ensures c < cols && Words(w, k, x)[j][t] == x[c]
  {
    MulNext(j, k, w);
  }

  ghost predicate WordVec(w: nat, a: seq<seq<bool>>, n: nat) {
    |a| == n && forall y | 0 <= y < n :: |a[y]| == w
  }

  // A partial product of words is a word.
  ghost function WordDot(g: seq<bool>, a: seq<seq<bool>>, b: seq<seq<bool>>, n: nat): (z: seq<bool>)
    requires WordVec(|g|, a, |a|) && WordVec(|g|, b, |a|) && n <= |a|
    ensures |z| == |g| && z == DotTo(GF(g), a, b, n)
  {
    if n == 0 then Zero(|g|) else Xor(WordDot(g, a, b, n - 1), Mul(g, a[n - 1], b[n - 1]))
  }

  // The product up to column t of block j.
  lemma {:induction false} ExpandedDotTo(g: seq<bool>, k: nat, C: seq<seq<seq<bool>>>, rows: nat, cols: nat,
                                         x: seq<bool>, i: nat, l: nat, r: nat, j: nat, t: nat, c: nat)
    requires |g| > 0 && IsMatrix(GF(g), C, |C|, k) && i < |C| && l < |g| && WordVec(|g|, C[i], k) && |x| == cols
    requires Column(|g|, |C|, 0, rows) && Column(|g|, k, 0, cols) && Column(|g|, i, l, r) && r < rows
    requires j < k && t <= |g| && Column(|g|, j, t, c) && c <= cols
    ensures DotTo(F2, Expanded(g, k, C, rows, cols)[r], x, c) ==
      (WordDot(g, C[i], Words(|g|, k, x), j)[l] != MulTo(g, Words(|g|, k, x)[j], C[i][j], t)[l])
    decreases j, t
  {
    hide Column, Expanded, Words, BitAt;
    var w, row, d := |g|, Expanded(g, k, C, rows, cols)[r], Words(|g|, k, x);
    if t > 0 {
      ColumnBack(w, j, t, c);
      ExpandedDotTo(g, k, C, rows, cols, x, i, l, r, j, t - 1, c - 1);
      ExpandedBit(g, k, C, rows, cols, i, l, r, j, t - 1, c - 1);
      WordBit(w, k, cols, x, j, t - 1, c - 1);
      BitDotStep(row, x, c);
    } else if j > 0 {
      ColumnWrap(w, j, c);
      ExpandedDotTo(g, k, C, rows, cols, x, i, l, r, j - 1, w, c);
      MulCommutes(g, d[j - 1], C[i][j - 1]);
    } else {
      ColumnOrigin(w, c);
      BitDotStep(row, x, 0);
    }
  }

  lemma ColumnBack(w: nat, j: nat, t: nat, c: nat)
    requires t > 0 && Column(w, j, t, c)
    ensures c > 0 && Column(w, j, t - 1, c - 1)
  {
  }

  lemma ColumnWrap(w: nat, j: nat, c: nat)
    requires j > 0 && Column(w, j, 0, c)
    ensures Column(w, j - 1, w, c)
  {
    assert j * w == (j - 1) * w + w;
  }

  lemma ColumnOrigin(w: nat, c: nat)
    requires Column(w, 0, 0, c)
    ensures c == 0
  {
  }

  lemma WordDotLast(g: seq<bool>, a: seq<seq<bool>>, d: seq<seq<bool>>, k: nat, l: nat)
    requires WordVec(|g|, a, k) && WordVec(|g|, d, k) && l < |g|
    ensures k > 0 ==> WordDot(g, a, d, k)[l] == (WordDot(g, a, d, k - 1)[l] != MulTo(g, d[k - 1], a[k - 1], |g|)[l])
    ensures k == 0 ==> !WordDot(g, a, d, k)[l]
  {
    if k > 0 {
      MulCommutes(g, d[k - 1], a[k - 1]);
    }
  }

  /** The bitmatrix times the bits of the data is the bits of the matrix times the data. */
  lemma ExpandedProduct(g: seq<bool>, k: nat, C: seq<seq<seq<bool>>>, rows: nat, cols: nat, x: seq<bool>, i: nat,
                        l: nat, r: nat)
    requires |g| > 0 && IsMatrix(GF(g), C, |C|, k) && i < |C| && l < |g| && WordVec(|g|, C[i], k) && |x| == cols
    requires Column(|g|, |C|, 0, rows) && Column(|g|, k, 0, cols) && Column(|g|, i, l, r) && r < rows
    ensures Dot(F2, Expanded(g, k, C, rows, cols)[r], x) == WordDot(g, C[i], Words(|g|, k, x), k)[l]
  {
    hide Column, Expanded, Words, BitAt, WordDot, MulTo, DotTo, IsMatrix;
    var w, d, row := |g|, Words(|g|, k, x), Expanded(g, k, C, rows, cols)[r];
    assert |row| == cols;
    WordDotLast(g, C[i], d, k, l);
    if k == 0 {
      ColumnOrigin(w, cols);
      BitDotStep(row, x, 0);
      assert !Dot(F2, row, x);
    } else {
      ColumnWrap(w, k, cols);
      ExpandedDotTo(g, k, C, rows, cols, x, i, l, r, k - 1, w, cols);
      assert Dot(F2, row, x) == DotTo(F2, row, x, cols);
    }
  }

  // Row l and column x of the block of e.
  ghost function BlockRow(g: seq<bool>, e: seq<bool>, l: nat): (row: seq<bool>)
    requires |e| == |g| && l < |g|
    ensures |row| == |g|
  {
    seq(|g|, x requires 0 <= x < |g| => BlockBit(g, e, l, x))
  }

  ghost function BlockColumn(g: seq<bool>, e: seq<bool>, x: nat): (column: seq<bool>)
    requires |e| == |g|
    ensures |column| == |g|
  {
    seq(|g|, l requires 0 <= l < |g| => BlockBit(g, e, l, x))
  }

  lemma {:induction false} BlockRowTimes(g: seq<bool>, e: seq<bool>, l: nat, v: seq<bool>, n: nat)
    requires |e| == |v| == |g| && l < |g| && n <= |g|
    ensures DotTo(F2, BlockRow(g, e, l), v, n) == MulTo(g, v, e, n)[l]
  {
    if n > 0 {
      BlockRowTimes(g, e, l, v, n - 1);
    }
  }

  /** The block of a product is the product of the blocks. */
  lemma BlockOfProduct(g: seq<bool>, a: seq<bool>, b: seq<bool>, l: nat, x: nat)
    requires |a| == |b| == |g| && l < |g| && x < |g|
    ensures BlockBit(g, Mul(g, a, b), l, x) == Dot(F2, BlockRow(g, a, l), BlockColumn(g, b, x))
  {
    assert BlockColumn(g, b, x) == Doubled(g, b, x);
    BlockRowTimes(g, a, l, Doubled(g, b, x), |g|);
    MulDoubled(g, a, b, x);
    MulCommutes(g, a, Doubled(g, b, x));
  }

  // ---- Decoding the expanded code.

  // The row of a coding device in the survivor matrix.
  lemma SurvivorCoding(g: seq<bool>, k: nat, m: nat, C: seq<seq<seq<bool>>>, rows: nat, cols: nat, ids: seq<nat>,
                       x: seq<bool>, i: nat, l: nat, q: nat)
    requires |g| > 0 && IsMatrix(GF(g), C, m, k) && |x| == cols && Column(|g|, m, 0, rows) && Column(|g|, k, 0, cols)
    requires i < k <= |ids| && l < |g| && k <= ids[i] < k + m && Column(|g|, i, l, q)
    requires WordVec(|g|, C[ids[i] - k], k)
    ensures q < cols
    ensures Dot(F2, SurvivorMatrix(|g|, cols, Expanded(g, k, C, rows, cols), ids)[q], x) ==
      WordDot(g, C[ids[i] - k], Words(|g|, k, x), k)[l]
  {
    hide Column, Expanded, Words, BitAt, SurvivorMatrix, Dot, WordDot, Shape;
    var w, B := |g|, Expanded(g, k, C, rows, cols);
    ToShape(w, k, m, cols, rows);
    var first := RaidSix.Starts(w, m, rows, ids[i] - k);
    SurvivorRow(k, m, w, cols, B, ids, i, l, q, first);
    ColumnShift(w, ids[i] - k, first, l);
    ExpandedProduct(g, k, C, rows, cols, x, ids[i] - k, l, first + l);
  }

  lemma ToShape(w: nat, k: nat, m: nat, cols: nat, rows: nat)
    requires 0 < w && Column(w, m, 0, rows) && Column(w, k, 0, cols)
    ensures Shape(k, m, w, cols, rows)
  {
  }

  lemma ColumnShift(w: nat, i: nat, first: nat, l: nat)
    requires Column(w, i, 0, first)
    ensures Column(w, i, l, first + l)
  {
  }

  // A kernel vector of the survivors' bits, as words, is one of the survivors' rows: for a data device ...
  lemma SurvivorDataWord(g: seq<bool>, k: nat, m: nat, C: seq<seq<seq<bool>>>, rows: nat, cols: nat, ids: seq<nat>,
                         x: seq<bool>, i: nat)
    requires |g| > 0 && IsMatrix(GF(g), C, m, k) && |x| == cols && Column(|g|, m, 0, rows) && Column(|g|, k, 0, cols)
    requires i < k <= |ids| && ids[i] == i
    requires RaidSix.Kernel(|g|, cols, Expanded(g, k, C, rows, cols), ids, x)
    ensures Words(|g|, k, x)[i] == Zero(|g|)
  {
    hide Column, Expanded, BitAt, SurvivorMatrix, Shape, Words, Dot;
    var w, d, B := |g|, Words(|g|, k, x), Expanded(g, k, C, rows, cols);
    ToShape(w, k, m, cols, rows);
    var first := RaidSix.Starts(w, k, cols, i);
    F2Valid();
    forall l | 0 <= l < w
      ensures d[i][l] == Zero(w)[l]
    {
      ColumnShift(w, i, first, l);
      SurvivorRow(k, m, w, cols, B, ids, i, l, first + l, 0);
      DotUnit(F2, x, first + l);
      WordBit(w, k, cols, x, i, l, first + l);
    }
  }

  // ... and for a coding device.
  lemma SurvivorCodingWord(g: seq<bool>, k: nat, m: nat, C: seq<seq<seq<bool>>>, rows: nat, cols: nat, ids: seq<nat>,
                           x: seq<bool>, i: nat)
    requires |g| > 0 && IsMatrix(GF(g), C, m, k) && |x| == cols && Column(|g|, m, 0, rows) && Column(|g|, k, 0, cols)
    requires i < k <= |ids| && k <= ids[i] < k + m && WordVec(|g|, C[ids[i] - k], k)
    requires RaidSix.Kernel(|g|, cols, Expanded(g, k, C, rows, cols), ids, x)
    ensures WordDot(g, C[ids[i] - k], Words(|g|, k, x), k) == Zero(|g|)
  {
    hide Column, Expanded, SurvivorMatrix, Words, WordDot, RaidSix.Kernel, GF;
    var z := WordDot(g, C[ids[i] - k], Words(|g|, k, x), k);
    var first := RaidSix.Starts(|g|, k, cols, i);
    forall l | 0 <= l < |g|
      ensures z[l] == Zero(|g|)[l]
    {
      SurvivorCodingBit(g, k, m, C, rows, cols, ids, x, i, l, first);
    }
  }

  lemma SurvivorCodingBit(g: seq<bool>, k: nat, m: nat, C: seq<seq<seq<bool>>>, rows: nat, cols: nat, ids: seq<nat>,
                          x: seq<bool>, i: nat, l: nat, first: nat)
    requires |g| > 0 && IsMatrix(GF(g), C, m, k) && |x| == cols && Column(|g|, m, 0, rows) && Column(|g|, k, 0, cols)
    requires i < k <= |ids| && l < |g| && k <= ids[i] < k + m && WordVec(|g|, C[ids[i] - k], k)
    requires Column(|g|, i, 0, first)
    requires RaidSix.Kernel(|g|, cols, Expanded(g, k, C, rows, cols), ids, x)
    ensures !WordDot(g, C[ids[i] - k], Words(|g|, k, x), k)[l]
  {
    hide Column, Expanded, SurvivorMatrix, Words, Dot, WordDot, RaidSix.Kernel;
    ColumnShift(|g|, i, first, l);
    SurvivorCoding(g, k, m, C, rows, cols, ids, x, i, l, first + l);
    KernelRow(|g|, cols, Expanded(g, k, C, rows, cols), ids, x, first + l);
  }

  lemma KernelRow(w: nat, cols: nat, B: seq<seq<bool>>, ids: seq<nat>, x: seq<bool>, q: nat)
    requires 0 < w && IsBitmatrix(B, |B|, cols) && RaidSix.Kernel(w, cols, B, ids, x) && q < cols
    ensures |x| == cols && !Dot(F2, SurvivorMatrix(w, cols, B, ids)[q], x)
  {
    hide SurvivorMatrix, Dot;
  }

  lemma SurvivorWords(g: seq<bool>, k: nat, m: nat, C: seq<seq<seq<bool>>>, rows: nat, cols: nat, ids: seq<nat>,
                      x: seq<bool>, i: nat)
    requires Primitive(g) && IsMatrix(GF(g), C, m, k) && |x| == cols && Column(|g|, m, 0, rows)
    requires Column(|g|, k, 0, cols)
    requires i < k <= |ids| && ids[i] < k + m && (ids[i] < k ==> ids[i] == i)
    requires RaidSix.Kernel(|g|, cols, Expanded(g, k, C, rows, cols), ids, x)
    ensures Dot(GF(g), DeviceRow(GF(g), k, C, ids[i]), Words(|g|, k, x)) == Zero(|g|)
  {
    hide Column, Expanded, BitAt, RaidSix.Kernel, Words, WordDot, DistinctPowers;
    var d := Words(|g|, k, x);
    if ids[i] == i {
      GFValid(g);
      assert IsVec(GF(g), d, k);
      DotUnit(GF(g), d, i);
      SurvivorDataWord(g, k, m, C, rows, cols, ids, x, i);
    } else {
      var row := C[ids[i] - k];
      assert IsVec(GF(g), row, k);
      assert WordVec(|g|, row, k);
      SurvivorCodingWord(g, k, m, C, rows, cols, ids, x, i);
    }
  }

  lemma WordsZero(g: seq<bool>, k: nat, cols: nat, x: seq<bool>)
    requires |g| > 0 && Column(|g|, k, 0, cols) && |x| == cols && Words(|g|, k, x) == ZeroVec(GF(g), k)
    ensures x == ZeroVec(F2, cols)
  {
    var w := |g|;
    forall c | 0 <= c < cols
      ensures !x[c]
    {
      DeviceBound(w, k, c);
      Position(w, 0, c);
      assert Words(w, k, x)[c / w] == Zero(w);
      assert Words(w, k, x)[c / w][c % w] == x[c];
    }
  }

  lemma ChosenIds(e: seq<bool>, k: nat, m: nat)
    requires |e| == k + m && Recoverable(e, k)
    ensures Chosen(RowIds(e, k)[..k], k, k + m)
    ensures forall i | 0 <= i < k :: RowIds(e, k)[i] < k ==> RowIds(e, k)[i] == i
  {
    RowIdsDistinct(e, k);
  }

  lemma SurvivorsSolve(g: seq<bool>, k: nat, m: nat, C: seq<seq<seq<bool>>>, rows: nat, cols: nat, ids: seq<nat>,
                       x: seq<bool>)
    requires Primitive(g) && IsMatrix(GF(g), C, m, k) && AnyRows(GF(g), Systematic(GF(g), k, C), k)
    requires Column(|g|, m, 0, rows) && Column(|g|, k, 0, cols) && |x| == cols
    requires k <= |ids| && Chosen(ids[..k], k, k + m) && (forall i | 0 <= i < k :: ids[i] < k ==> ids[i] == i)
    requires RaidSix.Kernel(|g|, cols, Expanded(g, k, C, rows, cols), ids, x)
    ensures x == ZeroVec(F2, cols)
  {
    hide Column, Expanded, BitAt, RaidSix.Kernel, Words, DeviceRow, Dot, DistinctPowers;
    var d, M := Words(|g|, k, x), Systematic(GF(g), k, C);
    assert IsVec(GF(g), d, k);
    assert Independent(GF(g), M, k, ids[..k]);
    forall i | 0 <= i < k
      ensures Dot(GF(g), M[ids[..k][i]], d) == GF(g).zero
    {
      SurvivorWords(g, k, m, C, rows, cols, ids, x, i);
    }
    assert Kills(GF(g), M, k, ids[..k], d);
    WordsZero(g, k, cols, x);
  }

  /** Scheduled decoding with the bitmatrix of such a matrix restores every recoverable loss. */
  lemma ExpandedDecodable(g: seq<bool>, k: nat, m: nat, C: seq<seq<seq<bool>>>, rows: nat, cols: nat, e: seq<bool>)
    requires Primitive(g) && IsMatrix(GF(g), C, m, k) && AnyRows(GF(g), Systematic(GF(g), k, C), k)
    requires Column(|g|, m, 0, rows) && Column(|g|, k, 0, cols) && |e| == k + m && Recoverable(e, k)
    ensures Decodable(|g|, k, cols, Expanded(g, k, C, rows, cols), e)
  {
    hide Column, Expanded, BitAt, SurvivorMatrix, RowIds, Recoverable, AnyRows, DistinctPowers;
    var B, ids := Expanded(g, k, C, rows, cols), RowIds(e, k);
    var D := SurvivorMatrix(|g|, cols, B, ids);
    ChosenIds(e, k, m);
    forall x | IsVec(F2, x, cols) && MatVec(F2, D, x) == ZeroVec(F2, cols)
      ensures x == ZeroVec(F2, cols)
    {
      forall q | 0 <= q < cols
        ensures !Dot(F2, D[q], x)
      {
        assert MatVec(F2, D, x)[q] == ZeroVec(F2, cols)[q];
      }
      SurvivorsSolve(g, k, m, C, rows, cols, ids, x);
    }
  }

  // ---- No coding packet is always zero.

  lemma {:induction false} NoBitNoProduct(g: seq<bool>, d: seq<bool>, e: seq<bool>, l: nat, n: nat)
    requires |d| == |e| == |g| && l < |g| && n <= |g| && forall x | 0 <= x < n :: !BlockBit(g, e, l, x)
    ensures !MulTo(g, d, e, n)[l]
  {
    if n > 0 {
      NoBitNoProduct(g, d, e, l, n - 1);
      assert !BlockBit(g, e, l, n - 1);
    }
  }

  // Every row of the block of a nonzero element has a one.
  lemma BlockRowHasOne(g: seq<bool>, e: seq<bool>, l: nat) returns (x: nat)
    requires Primitive(g) && |e| == |g| && e != Zero(|g|) && l < |g|
    ensures x < |g| && BlockBit(g, e, l, x)
  {
    hide BlockBit, DistinctPowers;
    HasInverse(g, e);
    var i := FindInverse(g, e, Order(g));
    var d := Mul(g, Basis(|g|, l), i);
    MulLaws(g, Basis(|g|, l), i, e);
    MulCommutes(g, i, e);
    MulOne(g, Basis(|g|, l));
    assert Mul(g, d, e)[l];
    if forall y | 0 <= y < |g| :: !BlockBit(g, e, l, y) {
      NoBitNoProduct(g, d, e, l, |g|);
    }
    x :| 0 <= x < |g| && BlockBit(g, e, l, x);
  }

  lemma ExpandedRowHasOne(g: seq<bool>, k: nat, m: nat, C: seq<seq<seq<bool>>>, rows: nat, cols: nat, i: nat, l: nat,
                          r: nat)
    requires Primitive(g) && IsMatrix(GF(g), C, m, k) && AnyRows(GF(g), Systematic(GF(g), k, C), k) && 0 < k && i < m
    requires l < |g|
    requires Column(|g|, m, 0, rows) && Column(|g|, k, 0, cols) && Column(|g|, i, l, r)
    ensures r < rows && Ones(Expanded(g, k, C, rows, cols)[r], cols) > 0
  {
    hide Column, Expanded, BitAt, AnyRows, Systematic, BlockBit, DistinctPowers;
    GFValid(g);
    CodingNonzero(GF(g), k, C, i, 0);
    assert IsVec(GF(g), C[i], k);
    var x := BlockRowHasOne(g, C[i][0], l);
    ColumnShift0(|g|, x);
    ExpandedBit(g, k, C, rows, cols, i, l, r, 0, x, x);
    RaidSix.OneMakesOnes(Expanded(g, k, C, rows, cols)[r], x, cols);
  }

  lemma ColumnShift0(w: nat, x: nat)
    ensures Column(w, 0, x, x)
  {
  }

  lemma ExpandedNonzero(g: seq<bool>, k: nat, m: nat, C: seq<seq<seq<bool>>>, rows: nat, cols: nat, e: seq<bool>)
    requires Primitive(g) && IsMatrix(GF(g), C, m, k) && AnyRows(GF(g), Systematic(GF(g), k, C), k) && 0 < k
    requires Column(|g|, m, 0, rows) && Column(|g|, k, 0, cols) && |e| == k + m
    ensures NonzeroRows(|g|, k, cols, Expanded(g, k, C, rows, cols), e)
  {
    hide Column, Expanded, BitAt, AnyRows, Shape, Generator, Pos, Ones, Systematic, DistinctPowers;
    var w, B := |g|, Expanded(g, k, C, rows, cols);
    ToShape(w, k, m, cols, rows);
    forall d, y | k <= d < |e| && e[d] && 0 <= y < w
      ensures Ones(Generator(cols, B, Pos(w, d, y)), cols) > 0
    {
      var first := RaidSix.Starts(w, m, rows, d - k);
      GeneratorRow(k, m, w, cols, B, d, y, first);
      ColumnShift(w, d - k, first, y);
      ExpandedRowHasOne(g, k, m, C, rows, cols, d - k, y, first + y);
    }
  }
}

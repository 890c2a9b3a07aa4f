/** The Liberation code (liberation.c): block j is the identity rotated by j, with one extra bit when j > 0.
    For an odd prime w, every block and every sum of two blocks is nonsingular, so any two lost devices are
    decodable. Subscripts are taken modulo w throughout. */
module Liberation {
  import opened Fields
  import opened LinearAlgebra
  import opened Encoders
  import opened Residues
  import opened RaidSix
  import opened RaidSixLayout

  // The row of block j that holds the extra bit.
  function ExtraRow(w: nat, j: nat): (r: nat)
    requires 0 < w
    ensures r < w
  {
    (j * ((w - 1) / 2)) % w
  }

  ghost predicate Rotated(w: nat, j: int, y: int, t: int)
    requires 0 < w
  {
    t == (j + y) % w
  }

  ghost predicate Extra(w: nat, j: int, y: int, t: int)
    requires 0 < w
  {
    j > 0 && y == ExtraRow(w, j) && t == (y + j - 1) % w
  }

  ghost function LiberationBlock(w: nat, j: nat): (X: seq<seq<bool>>)
    requires 0 < w
    ensures IsMatrix(F2, X, w, w)
  {
    seq(w, y requires 0 <= y < w => seq(w, t requires 0 <= t < w => Rotated(w, j, y, t) || Extra(w, j, y, t)))
  }

  ghost function LiberationBlocks(k: nat, w: nat): (blocks: seq<seq<seq<bool>>>)
    requires 0 < w
    ensures IsBlocks(w, k, blocks)
  {
    seq(k, j requires 0 <= j < k => LiberationBlock(w, j))
  }

  // The blocks before j, and the first i rows of block j without its extra bit.
  ghost predicate Filled(w: nat, j: nat, i: nat, x: int, y: int, t: int)
    requires 0 < w
  {
    (x < j && (Rotated(w, x, y, t) || Extra(w, x, y, t))) || (x == j && y < i && Rotated(w, x, y, t))
  }

  /** liberation_coding_bitmatrix: null when k > w. */
  method LiberationCodingBitmatrix(k: nat, w: nat) returns (matrix: array?<bool>)
    requires 0 < w
    ensures matrix == null <==> k > w
    ensures matrix != null ==>
      fresh(matrix) && matrix.Length == 2 * k * w * w &&
      Unflatten(2 * w, k * w, matrix[..]) == RaidSixMatrix(w, k * w, LiberationBlocks(k, w))
    ensures matrix != null ==> forall j, y, t | 0 <= j < k && 0 <= y < w && 0 <= t < w ::
      FirstAt(k, w, matrix[..], j, y, t) == (t == y)
    ensures matrix != null ==> forall j, y, t | 0 <= j < k && 0 <= y < w && 0 <= t < w ::
      SecondAt(k, w, matrix[..], j, y, t) ==
      (t == (j + y) % w || (j > 0 && y == (j * ((w - 1) / 2)) % w && t == (y + j - 1) % w))
    ensures matrix != null && w % 2 == 1 ==> forall j, y, t | 0 < j < k && 0 <= y < w && t == (y + j - 1) % w ::
      SecondAt(k, w, matrix[..], j, y, t) == ((2 * y + j) % w == 0)
  {
    hide Column, BlocksAre, BlockIndex, Rotated, Extra, Unflatten, RaidSixMatrix, FirstAt, SecondAt;
    if k > w {
      return null;
    }
    var rowLength := k * w;
    IsColumn(w, k, rowLength);
    var bits := StartRaidSix(k, w, rowLength);
    SameBlocks(w, rowLength, bits[..], (x, y, t) => false, (x, y, t) => Filled(w, 0, 0, x, y, t));
    for j := 0 to k
      invariant BlocksAre(w, rowLength, bits[..], (x, y, t) => Filled(w, j, 0, x, y, t))
    {
      LiberationBlockBits(k, w, bits, j, rowLength);
    }
    BlocksBuilt(k, w, rowLength, bits[..], (x, y, t) => Filled(w, k, 0, x, y, t), LiberationBlocks(k, w));
    LiberationFlat(k, w, bits[..]);
    if w % 2 == 1 {
      ExtraBits(k, w, bits[..]);
    }
    return bits;
  }

  /** For odd w the extra bit of block j is in the row y with 2 * y + j == 0. */
  lemma ExtraRowMeans(w: nat, j: nat, y: nat)
    requires w % 2 == 1 && y < w
    ensures y == (j * ((w - 1) / 2)) % w <==> (2 * y + j) % w == 0
  {
    var h := (w - 1) / 2;
    if y == (j * h) % w {
      DivisionIs(w, j * h);
      FromExtraRow(w, h, j, (j * h) / w, y);
      RemainderUnique(w, j - 2 * ((j * h) / w), 0);
    }
    if (2 * y + j) % w == 0 {
      var c := (2 * y + j) / w;
      DivisionIs(w, 2 * y + j);
      ToExtraRow(w, h, j, c, y);
      RemainderUnique(w, c * h - y, y);
    }
  }

  lemma DivisionIs(w: int, n: int)
    requires w > 0
    ensures n == w * (n / w) + n % w
  {
  }

  lemma FromExtraRow(w: int, h: int, j: int, q: int, y: int)
    requires w == 2 * h + 1 && y == j * h - w * q
    ensures 2 * y + j == w * (j - 2 * q)
  {
  }

  lemma ToExtraRow(w: int, h: int, j: int, c: int, y: int)
    requires w == 2 * h + 1 && 2 * y + j == w * c
    ensures j * h == w * (c * h - y) + y
  {
    assert j == w * c - 2 * y;
    assert j * h == (w * c) * h - 2 * y * h;
    assert (w * c) * h == w * (c * h);
    assert 2 * y * h == y * (2 * h) == y * w - y;
  }

  /** So for odd w the second bit of row y of block j > 0 is there exactly when 2 * y + j is 0 modulo w. */
  lemma ExtraBits(k: nat, w: nat, s: seq<bool>)
    requires w % 2 == 1 && k <= w
    requires forall j, y, t | 0 <= j < k && 0 <= y < w && 0 <= t < w ::
      SecondAt(k, w, s, j, y, t) ==
      (t == (j + y) % w || (j > 0 && y == (j * ((w - 1) / 2)) % w && t == (y + j - 1) % w))
    ensures forall j, y, t | 0 < j < k && 0 <= y < w && t == (y + j - 1) % w ::
      SecondAt(k, w, s, j, y, t) == ((2 * y + j) % w == 0)
  {
    hide SecondAt;
    forall j, y, t | 0 < j < k && 0 <= y < w && t == (y + j - 1) % w
      ensures SecondAt(k, w, s, j, y, t) == ((2 * y + j) % w == 0)
    {
      ExtraRowMeans(w, j, y);
      ColumnsDiffer(w, j + y);
    }
  }

  lemma ColumnsDiffer(w: nat, n: nat)
    requires w >= 2 && n > 0
    ensures n % w != (n - 1) % w && (n - 1) % w < w
  {
    DivisionIs(w, n);
    RemainderDown(w, n / w, n % w, n);
  }

  lemma RemainderDown(w: int, q: int, r: int, n: int)
    requires n == w * q + r && 0 <= r < w
    ensures (n - 1) % w == if r > 0 then r - 1 else w - 1
  {
    if r > 0 {
      RemainderUnique(w, q, r - 1);
    } else {
      OneLess(w, q);
      RemainderUnique(w, q - 1, w - 1);
    }
  }

  lemma OneLess(w: int, q: int)
    ensures w * q - 1 == w * (q - 1) + (w - 1)
  {
  }

  lemma LiberationFlat(k: nat, w: nat, s: seq<bool>)
    requires 0 < w && Unflatten(2 * w, k * w, s) == RaidSixMatrix(w, k * w, LiberationBlocks(k, w))
    ensures forall j, y, t | 0 <= j < k && 0 <= y < w && 0 <= t < w ::
      FirstAt(k, w, s, j, y, t) == (t == y)
    ensures forall j, y, t | 0 <= j < k && 0 <= y < w && 0 <= t < w ::
      SecondAt(k, w, s, j, y, t) ==
      (t == (j + y) % w || (j > 0 && y == (j * ((w - 1) / 2)) % w && t == (y + j - 1) % w))
  {
    hide FirstAt, SecondAt, Unflatten, RaidSixMatrix, ExtraRow, Rotated, Extra, LiberationBlock;
    var blocks := LiberationBlocks(k, w);
    FlatBits(k, w, s, blocks);
    forall j, y, t | 0 <= j < k && 0 <= y < w && 0 <= t < w
      ensures SecondAt(k, w, s, j, y, t) ==
        (t == (j + y) % w || (j > 0 && y == (j * ((w - 1) / 2)) % w && t == (y + j - 1) % w))
    {
      LiberationBit(w, j, y, t);
      assert blocks[j][y][t] == LiberationBlock(w, j)[y][t];
    }
  }

  lemma LiberationBit(w: nat, j: nat, y: nat, t: nat)
    requires y < w && t < w
    ensures LiberationBlock(w, j)[y][t] ==
      (t == (j + y) % w || (j > 0 && y == (j * ((w - 1) / 2)) % w && t == (y + j - 1) % w))
  {
  }

  lemma FillRow(w: nat, j: nat, i: nat, i': nat, t: nat)
    requires i < w && i' == i + 1 && t == (j + i) % w
    ensures forall x, y, t' | 0 <= y < w && 0 <= t' < w ::
      Filled(w, j, i', x, y, t') == (Filled(w, j, i, x, y, t') || (x == j && y == i && t' == t))
  {
    forall x, y, t' | 0 <= y < w && 0 <= t' < w
      ensures Filled(w, j, i', x, y, t') == (Filled(w, j, i, x, y, t') || (x == j && y == i && t' == t))
    {
      if x == j && y == i {
        assert Rotated(w, x, y, t') == (t' == t);
      }
    }
  }

  lemma FillExtra(w: nat, j: nat, j': nat, i: nat, t: nat)
    requires 0 < w && j > 0 && j' == j + 1 && i == ExtraRow(w, j) && t == (i + j - 1) % w
    ensures forall x, y, t' | 0 <= y < w && 0 <= t' < w ::
      Filled(w, j', 0, x, y, t') == (Filled(w, j, w, x, y, t') || (x == j && y == i && t' == t))
  {
    hide ExtraRow;
    forall x, y, t' | 0 <= y < w && 0 <= t' < w
      ensures Filled(w, j', 0, x, y, t') == (Filled(w, j, w, x, y, t') || (x == j && y == i && t' == t))
    {
      if x == j {
        assert Extra(w, x, y, t') == (y == i && t' == t);
      }
    }
  }

  method LiberationRows(k: nat, w: nat, matrix: array<bool>, j: nat, rowLength: nat, start: nat)
    requires 0 < w && j < k && Column(w, k, 0, rowLength) && Column(rowLength, 2 * w, 0, matrix.Length)
    requires BlockIndex(k, w, j, 0, 0, start)
    requires BlocksAre(w, rowLength, matrix[..], (x, y, t) => Filled(w, j, 0, x, y, t))
    modifies matrix
    ensures BlocksAre(w, rowLength, matrix[..], (x, y, t) => Filled(w, j, w, x, y, t))
  {
    hide Column, BlocksAre, BlockIndex, Filled;
    var index: nat := start;
    for i := 0 to w
      invariant BlockIndex(k, w, j, i, 0, index)
      invariant BlocksAre(w, rowLength, matrix[..], (x, y, t) => Filled(w, j, i, x, y, t))
    {
      var t := (j + i) % w;
      InBlockRow(k, w, j, i, index, t);
      FillRow(w, j, i, i + 1, t);
      SetBlockBit(k, w, matrix, index + t, rowLength, j, i, t,
        (x, y, t) => Filled(w, j, i, x, y, t), (x, y, t) => Filled(w, j, i + 1, x, y, t));
      NextBlockRow(k, w, j, i, index, rowLength);
      index := index + rowLength;
    }
  }

  method LiberationBlockBits(k: nat, w: nat, matrix: array<bool>, j: nat, rowLength: nat)
    requires 0 < w && j < k && Column(w, k, 0, rowLength) && Column(rowLength, 2 * w, 0, matrix.Length)
    requires BlocksAre(w, rowLength, matrix[..], (x, y, t) => Filled(w, j, 0, x, y, t))
    modifies matrix
    ensures BlocksAre(w, rowLength, matrix[..], (x, y, t) => Filled(w, j + 1, 0, x, y, t))
  {
    hide Column, BlocksAre, BlockIndex, Filled, ExtraIndex, BlockStart;
    var start := BlockStart(k, w, j);
    StartBlock(k, w, j);
    LiberationRows(k, w, matrix, j, rowLength, start);
    if j > 0 {
      var i := (j * ((w - 1) / 2)) % w;
      var t := (i + j - 1) % w;
      ExtraBlockIndex(k, w, j, start, i, rowLength, t);
      FillExtra(w, j, j + 1, i, t);
      SetBlockBit(k, w, matrix, ExtraIndex(start, i, rowLength, t), rowLength, j, i, t,
        (x, y, t) => Filled(w, j, w, x, y, t), (x, y, t) => Filled(w, j + 1, 0, x, y, t));
    } else {
      NoExtra(w);
      SameBlocks(w, rowLength, matrix[..], (x, y, t) => Filled(w, 0, w, x, y, t),
                 (x, y, t) => Filled(w, 1, 0, x, y, t));
    }
  }

  function ExtraIndex(start: nat, i: nat, rowLength: nat, t: nat): nat { start + i * rowLength + t }

  lemma ExtraBlockIndex(k: nat, w: nat, j: nat, start: nat, i: nat, rowLength: nat, t: nat)
    requires BlockIndex(k, w, j, 0, 0, start) && Column(w, k, 0, rowLength)
    ensures BlockIndex(k, w, j, i, t, ExtraIndex(start, i, rowLength, t))
  {
  }

  lemma NoExtra(w: nat)
    requires 0 < w
    ensures forall x, y, t | 0 <= x && 0 <= y < w && 0 <= t < w :: Filled(w, 0, w, x, y, t) == Filled(w, 1, 0, x, y, t)
  {
  }
}

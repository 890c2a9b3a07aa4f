/** The Blaum-Roth code (liberation.c): block j is multiplication by x^j modulo 1 + x + ... + x^w, written with
    rows and columns numbered from 1 to w = p - 1. */
module BlaumRoth {
  import opened Fields
  import opened LinearAlgebra
  import opened Encoders
  import opened RaidSix
  import opened RaidSixLayout

  // The second column of row p - j of block j: half of j modulo p.
  function Half(p: nat, j: nat): nat {
    if j % 2 == 0 then j / 2 else p / 2 + 1 + j / 2
  }

  // Row y and column t of block x; numbered from 1, they are y + 1 and t + 1.
  ghost predicate BlaumRothBit(w: nat, x: int, y: int, t: int) {
    var p, l, m := w + 1, y + 1, t + 1;
    if x <= 0 then m == l
    else if l != p - x then m == if l + x >= p then l + x - p else l + x
    else m == x || m == Half(p, x)
  }

  ghost function BlaumRothBlock(w: nat, j: nat): (X: seq<seq<bool>>)
    ensures IsMatrix(F2, X, w, w)
  {
    seq(w, y requires 0 <= y < w => seq(w, t requires 0 <= t < w => BlaumRothBit(w, j, y, t)))
  }

  ghost function BlaumRothBlocks(k: nat, w: nat): (blocks: seq<seq<seq<bool>>>)
    ensures IsBlocks(w, k, blocks)
  {
    seq(k, j requires 0 <= j < k => BlaumRothBlock(w, j))
  }

  // The blocks before j, and the first i rows of block j.
  ghost predicate Filled(w: nat, j: nat, i: nat, x: int, y: int, t: int) {
    (x < j || (x == j && y < i)) && BlaumRothBit(w, x, y, t)
  }

  /** blaum_roth_coding_bitmatrix: null when k > w. */
  method BlaumRothCodingBitmatrix(k: nat, w: nat) returns (matrix: array?<bool>)
    requires 0 < w
    ensures matrix == null <==> k > w
    ensures matrix != null ==>
      fresh(matrix) && matrix.Length == 2 * k * w * w &&
      Unflatten(2 * w, k * w, matrix[..]) == RaidSixMatrix(w, k * w, BlaumRothBlocks(k, w))
    ensures matrix != null ==> forall j, y, t | 0 <= j < k && 0 <= y < w && 0 <= t < w ::
      FirstAt(k, w, matrix[..], j, y, t) == (t == y)
    ensures matrix != null ==> forall j, y, t | 0 <= j < k && 0 <= y < w && 0 <= t < w ::
      SecondAt(k, w, matrix[..], j, y, t) ==
      if (y + 1 + j) % (w + 1) != 0 then t + 1 == (y + 1 + j) % (w + 1)
      else t + 1 == j || t + 1 == if j % 2 == 0 then j / 2 else (w + 1) / 2 + 1 + j / 2
  {
    hide Column, BlocksAre, BlockIndex, BlaumRothBit, Unflatten, RaidSixMatrix, BlockStart, FirstAt, SecondAt;
    if k > w {
      return null;
    }
    var rowLength := k * w;
    IsColumn(w, k, rowLength);
    var bits := StartRaidSix(k, w, rowLength);
    SameBlocks(w, rowLength, bits[..], (x, y, t) => false, (x, y, t) => Filled(w, 0, 0, x, y, t));
    for j := 0 to k
      invariant BlocksAre(w, rowLength, bits[..], (x, y, t) => Filled(w, j, 0, x, y, t))
    {
      var index := BlockStart(k, w, j);
      StartBlock(k, w, j);
      BlaumRothRows(k, w, bits, j, rowLength, index);
      SameBlocks(w, rowLength, bits[..], (x, y, t) => Filled(w, j, w, x, y, t),
                 (x, y, t) => Filled(w, j + 1, 0, x, y, t));
    }
    BlocksBuilt(k, w, rowLength, bits[..], (x, y, t) => Filled(w, k, 0, x, y, t), BlaumRothBlocks(k, w));
    BlaumRothFlat(k, w, bits[..]);
    return bits;
  }

  lemma BlaumRothFlat(k: nat, w: nat, s: seq<bool>)
    requires 0 < w && k <= w
    requires Unflatten(2 * w, k * w, s) == RaidSixMatrix(w, k * w, BlaumRothBlocks(k, w))
    ensures forall j, y, t | 0 <= j < k && 0 <= y < w && 0 <= t < w :: FirstAt(k, w, s, j, y, t) == (t == y)
    ensures forall j, y, t | 0 <= j < k && 0 <= y < w && 0 <= t < w ::
      SecondAt(k, w, s, j, y, t) ==
      if (y + 1 + j) % (w + 1) != 0 then t + 1 == (y + 1 + j) % (w + 1)
      else t + 1 == j || t + 1 == if j % 2 == 0 then j / 2 else (w + 1) / 2 + 1 + j / 2
  {
    hide FirstAt, SecondAt, Unflatten, RaidSixMatrix, BlaumRothBlock;
    var blocks := BlaumRothBlocks(k, w);
    FlatBits(k, w, s, blocks);
    forall j, y, t | 0 <= j < k && 0 <= y < w && 0 <= t < w
      ensures SecondAt(k, w, s, j, y, t) ==
        if (y + 1 + j) % (w + 1) != 0 then t + 1 == (y + 1 + j) % (w + 1)
        else t + 1 == j || t + 1 == if j % 2 == 0 then j / 2 else (w + 1) / 2 + 1 + j / 2
    {
      BlaumRothAt(w, j, y, t);
      assert blocks[j][y][t] == BlaumRothBlock(w, j)[y][t];
    }
  }

  lemma BlaumRothAt(w: nat, j: nat, y: nat, t: nat)
    requires j < w && y < w && t < w
    ensures BlaumRothBlock(w, j)[y][t] ==
      if (y + 1 + j) % (w + 1) != 0 then t + 1 == (y + 1 + j) % (w + 1)
      else t + 1 == j || t + 1 == if j % 2 == 0 then j / 2 else (w + 1) / 2 + 1 + j / 2
  {
    Wraps(w + 1, y + 1 + j);
  }

  lemma Wraps(p: nat, n: nat)
    requires 0 < p && n < 2 * p
    ensures n % p == if n < p then n else n - p
  {
  }

  method BlaumRothRows(k: nat, w: nat, matrix: array<bool>, j: nat, rowLength: nat, start: nat)
    requires 0 < w && j < k <= w && Column(w, k, 0, rowLength) && Column(rowLength, 2 * w, 0, matrix.Length)
    requires BlockIndex(k, w, j, 0, 0, start)
    requires BlocksAre(w, rowLength, matrix[..], (x, y, t) => Filled(w, j, 0, x, y, t))
    modifies matrix
    ensures BlocksAre(w, rowLength, matrix[..], (x, y, t) => Filled(w, j, w, x, y, t))
  {
    hide Column, BlocksAre, BlockIndex, Filled, BlaumRothBit;
    var p := w + 1;
    var index: nat := start;
    if j == 0 {
      for l := 0 to w
        invariant BlockIndex(k, w, j, l, 0, index)
        invariant BlocksAre(w, rowLength, matrix[..], (x, y, t) => Filled(w, j, l, x, y, t))
      {
        InBlockRow(k, w, j, l, index, l);
        FillOne(w, j, l, l + 1, l);
        SetBlockBit(k, w, matrix, index + l, rowLength, j, l, l, (x, y, t) => Filled(w, j, l, x, y, t),
                    (x, y, t) => Filled(w, j, l + 1, x, y, t));
        NextBlockRow(k, w, j, l, index, rowLength);
        index := index + rowLength;
      }
    } else {
      for l := 1 to w + 1
        invariant BlockIndex(k, w, j, l - 1, 0, index)
        invariant BlocksAre(w, rowLength, matrix[..], (x, y, t) => Filled(w, j, l - 1, x, y, t))
      {
        SetRow(k, w, matrix, j, rowLength, l, p, index);
        NextBlockRow(k, w, j, l - 1, index, rowLength);
        index := index + rowLength;
      }
    }
  }

  // The body of the loop over rows l of block i = j > 0.
  method SetRow(k: nat, w: nat, matrix: array<bool>, i: nat, rowLength: nat, l: nat, p: nat, index: nat)
    requires 0 < i < k <= w && 1 <= l <= w && p == w + 1 && Column(w, k, 0, rowLength)
    requires Column(rowLength, 2 * w, 0, matrix.Length)
    requires BlockIndex(k, w, i, l - 1, 0, index)
    requires BlocksAre(w, rowLength, matrix[..], (x, y, t) => Filled(w, i, l - 1, x, y, t))
    modifies matrix
    ensures BlocksAre(w, rowLength, matrix[..], (x, y, t) => Filled(w, i, l, x, y, t))
  {
    hide Column, BlocksAre, BlockIndex, Filled, BlaumRothBit;
    if l != p - i {
      var m := l + i;
      if m >= p {
        m := m - p;
      }
      m := m - 1;
      InBlockRow(k, w, i, l - 1, index, m);
      FillOne(w, i, l - 1, l, m);
      SetBlockBit(k, w, matrix, index + m, rowLength, i, l - 1, m,
        (x, y, t) => Filled(w, i, l - 1, x, y, t), (x, y, t) => Filled(w, i, l, x, y, t));
    } else {
      SetTwoBits(k, w, matrix, i, rowLength, l, p, index);
    }
  }

  // Row p - i has two bits.
  method SetTwoBits(k: nat, w: nat, matrix: array<bool>, i: nat, rowLength: nat, l: nat, p: nat, index: nat)
    requires 0 < i < k <= w && l == p - i && p == w + 1 && Column(w, k, 0, rowLength)
    requires Column(rowLength, 2 * w, 0, matrix.Length)
    requires BlockIndex(k, w, i, l - 1, 0, index)
    requires BlocksAre(w, rowLength, matrix[..], (x, y, t) => Filled(w, i, l - 1, x, y, t))
    modifies matrix
    ensures BlocksAre(w, rowLength, matrix[..], (x, y, t) => Filled(w, i, l, x, y, t))
  {
    hide Column, BlocksAre, BlockIndex, Filled, BlaumRothBit;
    InBlockRow(k, w, i, l - 1, index, i - 1);
    SetBlockBit(k, w, matrix, index + i - 1, rowLength, i, l - 1, i - 1,
      (x, y, t) => Filled(w, i, l - 1, x, y, t),
      (x, y, t) => Filled(w, i, l - 1, x, y, t) || (x == i && y == l - 1 && t == i - 1));
    var m;
    if i % 2 == 0 {
      m := i / 2;
    } else {
      m := p / 2 + 1 + i / 2;
    }
    m := m - 1;
    InBlockRow(k, w, i, l - 1, index, m);
    FillTwo(w, i, l - 1, l, m);
    SetBlockBit(k, w, matrix, index + m, rowLength, i, l - 1, m,
      (x, y, t) => Filled(w, i, l - 1, x, y, t) || (x == i && y == l - 1 && t == i - 1),
      (x, y, t) => Filled(w, i, l, x, y, t));
  }

  lemma FillOne(w: nat, j: nat, i: nat, i': nat, t: nat)
    requires i < w && i' == i + 1
    requires if j == 0 then t == i else i + 1 != w + 1 - j && t == if i + 1 + j >= w + 1 then i + j - w - 1 else i + j
    ensures forall x, y, t' | 0 <= y < w && 0 <= t' < w ::
      Filled(w, j, i', x, y, t') == (Filled(w, j, i, x, y, t') || (x == j && y == i && t' == t))
  {
    forall x, y, t' | 0 <= y < w && 0 <= t' < w
      ensures Filled(w, j, i', x, y, t') == (Filled(w, j, i, x, y, t') || (x == j && y == i && t' == t))
    {
      if x == j && y == i {
        assert BlaumRothBit(w, x, y, t') == (t' == t);
      }
    }
  }

  lemma FillTwo(w: nat, j: nat, i: nat, i': nat, t: nat)
    requires i < w && i' == i + 1 && j > 0 && i' == w + 1 - j && t + 1 == Half(w + 1, j)
    ensures forall x, y, t' | 0 <= y < w && 0 <= t' < w ::
      Filled(w, j, i', x, y, t') ==
      (Filled(w, j, i, x, y, t') || (x == j && y == i && t' == j - 1) || (x == j && y == i && t' == t))
  {
    forall x, y, t' | 0 <= y < w && 0 <= t' < w
      ensures Filled(w, j, i', x, y, t') ==
        (Filled(w, j, i, x, y, t') || (x == j && y == i && t' == j - 1) || (x == j && y == i && t' == t))
    {
      if x == j && y == i {
        assert BlaumRothBit(w, x, y, t') == (t' == j - 1 || t' == t);
      }
    }
  }
}

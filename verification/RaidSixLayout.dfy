/** Building a RAID-6 bitmatrix in one array, row after row, as the library stores it. */
module RaidSixLayout {
  import opened Arithmetic
  import opened Encoders
  import opened RaidSix

  ghost function Unflatten(rows: nat, cols: nat, s: seq<bool>): (M: seq<seq<bool>>)
    ensures |M| == rows && forall r | 0 <= r < rows :: |M[r]| == cols
  {
    seq(rows, r requires 0 <= r < rows => seq(cols, c requires 0 <= c < cols => r * cols + c < |s| && s[r * cols + c]))
  }

  lemma StoreBit(rows: nat, cols: nat, s: seq<bool>, r: nat, c: nat, index: nat)
    requires Column(cols, rows, 0, |s|) && r < rows && c < cols && Column(cols, r, c, index)
    ensures index < |s|
    ensures forall r', c' | 0 <= r' < rows && 0 <= c' < cols ::
      Unflatten(rows, cols, s[index := true])[r'][c'] == (Unflatten(rows, cols, s)[r'][c'] || (r' == r && c' == c))
  {
    MulNext(r, rows, cols);
    forall r', c' | 0 <= r' < rows && 0 <= c' < cols
      ensures Unflatten(rows, cols, s[index := true])[r'][c'] ==
        (Unflatten(rows, cols, s)[r'][c'] || (r' == r && c' == c))
    {
      MulNext(r', rows, cols);
      DivModUnique(cols, r', c');
      DivModUnique(cols, r, c);
    }
  }

  ghost predicate BitsAre(w: nat, cols: nat, s: seq<bool>, bits: (int, int) -> bool) {
    forall r, c | 0 <= r < 2 * w && 0 <= c < cols :: Unflatten(2 * w, cols, s)[r][c] == bits(r, c)
  }

  method SetBit(w: nat, matrix: array<bool>, index: nat, ghost cols: nat, ghost r: nat, ghost c: nat,
                ghost before: (int, int) -> bool, ghost after: (int, int) -> bool)
    requires Column(cols, 2 * w, 0, matrix.Length) && r < 2 * w && c < cols && Column(cols, r, c, index)
    requires BitsAre(w, cols, matrix[..], before)
    requires forall r', c' | 0 <= r' < 2 * w && 0 <= c' < cols ::
      after(r', c') == (before(r', c') || (r' == r && c' == c))
    modifies matrix
    ensures BitsAre(w, cols, matrix[..], after)
  {
    hide Column, Unflatten;
    StoreBit(2 * w, cols, matrix[..], r, c, index);
    matrix[index] := true;
    assert matrix[..] == old(matrix[..])[index := true];
  }

  // The identity blocks, up to column block j of row i.
  ghost predicate Identities(w: nat, i: nat, j: nat, r: int, c: int)
    requires 0 < w
  {
    r < w && c % w == r && (r < i || (r == i && c / w < j))
  }

  lemma NextIdentity(k: nat, w: nat, cols: nat, i: nat, j: nat, c: nat, r': nat, c': nat)
    requires i < w && j < k && Column(w, k, 0, cols) && Column(w, j, i, c) && r' < 2 * w && c' < cols
    ensures c < cols
    ensures Identities(w, i, j + 1, r', c') == (Identities(w, i, j, r', c') || (r' == i && c' == c))
  {
    ColumnNext(k, w, j, i, c, cols);
    Position(w, 0, c');
  }

  lemma IdentityRowDone(k: nat, w: nat, cols: nat, i: nat, r: nat, c: nat)
    requires i < w && Column(w, k, 0, cols) && c < cols
    ensures Identities(w, i, k, r, c) == Identities(w, i + 1, 0, r, c)
  {
    DeviceBound(w, k, c);
  }

  function IdentityStart(k: nat, w: nat, i: nat): nat { i * k * w + i }

  lemma IsColumn(w: nat, k: nat, cols: nat)
    requires cols == k * w
    ensures Column(w, k, 0, cols)
  {
  }

  lemma MatrixSize(k: nat, w: nat, cols: nat, i: nat)
    requires Column(w, k, 0, cols)
    ensures Column(cols, 2 * w, 0, 2 * k * w * w)
    ensures Column(cols, i, i, IdentityStart(k, w, i))
    ensures Column(cols, w, 0, k * w * w)
  {
    assert 2 * k * w * w == 2 * w * (k * w) && i * k * w == i * (k * w) && k * w * w == w * (k * w);
  }

  lemma ColumnStep(cols: nat, r: nat, c: nat, index: nat, w: nat, i: nat, j: nat)
    requires Column(cols, r, c, index) && Column(w, j, i, c)
    ensures Column(cols, r, c + w, index + w) && Column(w, j + 1, i, c + w)
  {
  }

  method SetUpIdentityRow(k: nat, w: nat, matrix: array<bool>, i: nat, ghost cols: nat)
    requires i < w && Column(w, k, 0, cols) && Column(cols, 2 * w, 0, matrix.Length)
    requires BitsAre(w, cols, matrix[..], (r, c) => Identities(w, i, 0, r, c))
    modifies matrix
    ensures BitsAre(w, cols, matrix[..], (r, c) => Identities(w, i, k, r, c))
  {
    hide Column, BitsAre, Identities, IdentityStart;
    var index: nat := IdentityStart(k, w, i);
    MatrixSize(k, w, cols, i);
    ghost var c: nat := i;
    FirstColumn(w, i);
    for j := 0 to k
      invariant Column(cols, i, c, index) && Column(w, j, i, c)
      invariant BitsAre(w, cols, matrix[..], (r, c) => Identities(w, i, j, r, c))
    {
      forall r', c' | 0 <= r' < 2 * w && 0 <= c' < cols
        ensures Identities(w, i, j + 1, r', c') == (Identities(w, i, j, r', c') || (r' == i && c' == c))
      {
        NextIdentity(k, w, cols, i, j, c, r', c');
      }
      ColumnNext(k, w, j, i, c, cols);
      SetBit(w, matrix, index, cols, i, c, (r, c) => Identities(w, i, j, r, c),
             (r, c) => Identities(w, i, j + 1, r, c));
      ColumnStep(cols, i, c, index, w, i, j);
      c := c + w;
      index := index + w;
    }
  }

  /** The rows of the first coding device. */
  method SetUpIdentities(k: nat, w: nat, matrix: array<bool>, ghost cols: nat)
    requires 0 < w && Column(w, k, 0, cols) && Column(cols, 2 * w, 0, matrix.Length)
    requires BitsAre(w, cols, matrix[..], (r, c) => false)
    modifies matrix
    ensures BitsAre(w, cols, matrix[..], (r, c) => Identities(w, w, 0, r, c))
  {
    hide Column, BitsAre, Identities;
    NoBits(w, cols, matrix[..]);
    for i := 0 to w
      invariant BitsAre(w, cols, matrix[..], (r, c) => Identities(w, i, 0, r, c))
    {
      SetUpIdentityRow(k, w, matrix, i, cols);
      IdentityRow(k, w, cols, i, matrix[..]);
    }
  }

  lemma FirstColumn(w: nat, i: nat)
    ensures Column(w, 0, i, i)
  {
  }

  lemma NoBits(w: nat, cols: nat, s: seq<bool>)
    requires 0 < w && BitsAre(w, cols, s, (r, c) => false)
    ensures BitsAre(w, cols, s, (r, c) => Identities(w, 0, 0, r, c))
  {
    forall r, c | 0 <= r < 2 * w && 0 <= c < cols
      ensures !Identities(w, 0, 0, r, c)
    {
      Position(w, 0, c);
    }
  }

  lemma IdentityRow(k: nat, w: nat, cols: nat, i: nat, s: seq<bool>)
    requires i < w && Column(w, k, 0, cols) && BitsAre(w, cols, s, (r, c) => Identities(w, i, k, r, c))
    ensures BitsAre(w, cols, s, (r, c) => Identities(w, i + 1, 0, r, c))
  {
    forall r, c | 0 <= r < 2 * w && 0 <= c < cols
      ensures Identities(w, i, k, r, c) == Identities(w, i + 1, 0, r, c)
    {
      IdentityRowDone(k, w, cols, i, r, c);
    }
  }

  // ---- The rows of the second coding device, below the identities: entry(j, y, t) is bit t of row y of block j.

  ghost predicate BlockBits(w: nat, entry: (int, int, int) -> bool, r: int, c: int)
    requires 0 < w
  {
    if r < w then c % w == r else entry(c / w, r - w, c % w)
  }

  ghost predicate BlocksAre(w: nat, cols: nat, s: seq<bool>, entry: (int, int, int) -> bool)
    requires 0 < w
  {
    BitsAre(w, cols, s, (r, c) => BlockBits(w, entry, r, c))
  }

  lemma SameBlocks(w: nat, cols: nat, s: seq<bool>, entry: (int, int, int) -> bool, entry': (int, int, int) -> bool)
    requires 0 < w && BlocksAre(w, cols, s, entry)
    requires forall x, y, t | 0 <= x && 0 <= y < w && 0 <= t < w :: entry(x, y, t) == entry'(x, y, t)
    ensures BlocksAre(w, cols, s, entry')
  {
    hide BitsAre;
    forall r, c | 0 <= r < 2 * w && 0 <= c < cols
      ensures BlockBits(w, entry, r, c) == BlockBits(w, entry', r, c)
    {
      InRange(w, c);
    }
    SameBits(w, cols, s, (r, c) => BlockBits(w, entry, r, c), (r, c) => BlockBits(w, entry', r, c));
  }

  lemma InRange(w: nat, c: nat)
    requires 0 < w
    ensures 0 <= c / w && 0 <= c % w < w
  {
  }

  lemma SameBits(w: nat, cols: nat, s: seq<bool>, bits: (int, int) -> bool, bits': (int, int) -> bool)
    requires BitsAre(w, cols, s, bits) && forall r, c | 0 <= r < 2 * w && 0 <= c < cols :: bits(r, c) == bits'(r, c)
    ensures BitsAre(w, cols, s, bits')
  {
    hide Unflatten;
  }

  // Where bit t of row y of block j is stored.
  ghost predicate BlockIndex(k: nat, w: nat, j: nat, y: nat, t: nat, index: nat) {
    index == k * w * w + j * w + y * (k * w) + t
  }

  lemma BlockCell(k: nat, w: nat, cols: nat, j: nat, y: nat, t: nat, index: nat) returns (c: nat)
    requires 0 < w && Column(w, k, 0, cols) && j < k && t < w && BlockIndex(k, w, j, y, t, index)
    ensures c < cols && Column(cols, w + y, c, index)
    ensures forall c' | 0 <= c' < cols :: c' == c <==> c' / w == j && c' % w == t
  {
    c := j * w + t;
    MulNext(j, k, w);
    assert k * w * w == w * (k * w) && (w + y) * (k * w) == w * (k * w) + y * (k * w);
    forall c' | 0 <= c' < cols
      ensures c' == c <==> c' / w == j && c' % w == t
    {
      DivModUnique(w, j, t);
      Position(w, 0, c');
    }
  }

  method SetBlockBit(k: nat, w: nat, matrix: array<bool>, index: nat, ghost cols: nat, ghost j: nat, ghost y: nat,
                     ghost t: nat, ghost before: (int, int, int) -> bool, ghost after: (int, int, int) -> bool)
    requires 0 < w && Column(w, k, 0, cols) && Column(cols, 2 * w, 0, matrix.Length)
    requires j < k && y < w && t < w && BlockIndex(k, w, j, y, t, index)
    requires BlocksAre(w, cols, matrix[..], before)
    requires forall x', y', t' | 0 <= y' < w && 0 <= t' < w ::
      after(x', y', t') == (before(x', y', t') || (x' == j && y' == y && t' == t))
    modifies matrix
    ensures BlocksAre(w, cols, matrix[..], after)
  {
    hide Column, BitsAre, BlockIndex;
    ghost var c := BlockCell(k, w, cols, j, y, t, index);
    SetBit(w, matrix, index, cols, w + y, c, (r, c) => BlockBits(w, before, r, c), (r, c) => BlockBits(w, after, r, c));
  }

  method StartRaidSix(k: nat, w: nat, ghost cols: nat) returns (matrix: array<bool>)
    requires 0 < w && cols == k * w
    ensures fresh(matrix) && matrix.Length == 2 * k * w * w && Column(cols, 2 * w, 0, matrix.Length)
    ensures BlocksAre(w, cols, matrix[..], (x, y, t) => false)
  {
    matrix := new bool[2 * k * w * w](i => false);
    MatrixSize(k, w, cols, 0);
    assert forall x | 0 <= x < matrix.Length :: !matrix[..][x];
    assert BitsAre(w, cols, matrix[..], (r, c) => false);
    SetUpIdentities(k, w, matrix, cols);
    OnlyIdentities(w, cols, matrix[..]);
  }

  lemma OnlyIdentities(w: nat, cols: nat, s: seq<bool>)
    requires 0 < w && BitsAre(w, cols, s, (r, c) => Identities(w, w, 0, r, c))
    ensures BlocksAre(w, cols, s, (x, y, t) => false)
  {
  }

  function BlockStart(k: nat, w: nat, j: nat): nat { k * w * w + j * w }

  lemma StartBlock(k: nat, w: nat, j: nat)
    ensures BlockIndex(k, w, j, 0, 0, BlockStart(k, w, j))
  {
  }

  lemma NextBlockRow(k: nat, w: nat, j: nat, y: nat, index: nat, rowLength: nat)
    requires BlockIndex(k, w, j, y, 0, index) && Column(w, k, 0, rowLength)
    ensures BlockIndex(k, w, j, y + 1, 0, index + rowLength)
  {
    assert (y + 1) * (k * w) == y * (k * w) + k * w;
  }

  lemma InBlockRow(k: nat, w: nat, j: nat, y: nat, index: nat, t: nat)
    requires BlockIndex(k, w, j, y, 0, index)
    ensures BlockIndex(k, w, j, y, t, index + t)
  {
  }

  lemma BlockBit(w: nat, cols: nat, s: seq<bool>, entry: (int, int, int) -> bool, r: nat, c: nat)
    requires 0 < w && BlocksAre(w, cols, s, entry) && r < 2 * w && c < cols
    ensures Unflatten(2 * w, cols, s)[r][c] == BlockBits(w, entry, r, c)
  {
    hide Unflatten, BlockBits;
  }

  lemma EntryBit(k: nat, w: nat, cols: nat, entry: (int, int, int) -> bool, blocks: seq<seq<seq<bool>>>, r: nat, c: nat)
    requires 0 < w && IsBlocks(w, k, blocks) && Column(w, k, 0, cols) && r < 2 * w && c < cols
    requires forall x, y, t | 0 <= x < k && 0 <= y < w && 0 <= t < w :: blocks[x][y][t] == entry(x, y, t)
    ensures Entry(w, blocks, r, c) == BlockBits(w, entry, r, c)
  {
    DeviceBound(w, k, c);
  }

  lemma BlocksBuilt(k: nat, w: nat, cols: nat, s: seq<bool>, entry: (int, int, int) -> bool,
                    blocks: seq<seq<seq<bool>>>)
    requires 0 < w && IsBlocks(w, k, blocks) && Column(w, k, 0, cols) && BlocksAre(w, cols, s, entry)
    requires forall x, y, t | 0 <= x < k && 0 <= y < w && 0 <= t < w :: blocks[x][y][t] == entry(x, y, t)
    ensures Unflatten(2 * w, cols, s) == RaidSixMatrix(w, cols, blocks)
  {
    hide Unflatten, Entry, IsBlocks, BlocksAre, Column;
    var M, R := Unflatten(2 * w, cols, s), RaidSixMatrix(w, cols, blocks);
    forall r | 0 <= r < 2 * w
      ensures M[r] == R[r]
    {
      forall c | 0 <= c < cols
        ensures M[r][c] == R[r][c]
      {
        BlockBit(w, cols, s, entry, r, c);
        EntryBit(k, w, cols, entry, blocks, r, c);
      }
    }
  }

  // ---- The array, index by index.

  ghost predicate StoredBit(s: seq<bool>, index: int) { 0 <= index < |s| && s[index] }

  // Bit t of row y of block j, for the first and for the second coding device.
  ghost predicate FirstAt(k: nat, w: nat, s: seq<bool>, j: nat, y: nat, t: nat) {
    StoredBit(s, j * w + y * (k * w) + t)
  }

  ghost predicate SecondAt(k: nat, w: nat, s: seq<bool>, j: nat, y: nat, t: nat) {
    StoredBit(s, k * w * w + j * w + y * (k * w) + t)
  }

  lemma FlatIndex(k: nat, w: nat, cols: nat, j: nat, y: nat, t: nat)
    requires cols == k * w && j < k && y < w && t < w
    ensures j * w + t < cols
    ensures (w + y) * cols + (j * w + t) == k * w * w + j * w + y * (k * w) + t
    ensures y * cols + (j * w + t) == j * w + y * (k * w) + t
    ensures (j * w + t) / w == j && (j * w + t) % w == t
  {
    MulNext(j, k, w);
    DivModUnique(w, j, t);
    assert (w + y) * cols == w * cols + y * cols && w * cols == k * w * w;
  }

  lemma StoredEntry(rows: nat, cols: nat, s: seq<bool>, r: nat, c: nat)
    requires r < rows && c < cols
    ensures StoredBit(s, r * cols + c) == Unflatten(rows, cols, s)[r][c]
  {
  }

  /** What an array that holds a RAID-6 matrix has at every index. */
  lemma FlatBits(k: nat, w: nat, s: seq<bool>, blocks: seq<seq<seq<bool>>>)
    requires 0 < w && IsBlocks(w, k, blocks) && Unflatten(2 * w, k * w, s) == RaidSixMatrix(w, k * w, blocks)
    ensures forall j, y, t | 0 <= j < k && 0 <= y < w && 0 <= t < w ::
      FirstAt(k, w, s, j, y, t) == (t == y)
    ensures forall j, y, t | 0 <= j < k && 0 <= y < w && 0 <= t < w ::
      SecondAt(k, w, s, j, y, t) == blocks[j][y][t]
  {
    hide FirstAt, SecondAt, Unflatten;
    forall j, y, t | 0 <= j < k && 0 <= y < w && 0 <= t < w
      ensures FirstAt(k, w, s, j, y, t) == (t == y)
      ensures SecondAt(k, w, s, j, y, t) == blocks[j][y][t]
    {
      FlatBit(k, w, k * w, s, blocks, j, y, t);
    }
  }

  lemma FlatBit(k: nat, w: nat, cols: nat, s: seq<bool>, blocks: seq<seq<seq<bool>>>, j: nat, y: nat, t: nat)
    requires 0 < w && IsBlocks(w, k, blocks) && Unflatten(2 * w, cols, s) == RaidSixMatrix(w, cols, blocks)
    requires cols == k * w && j < k && y < w && t < w
    ensures FirstAt(k, w, s, j, y, t) == (t == y)
    ensures SecondAt(k, w, s, j, y, t) == blocks[j][y][t]
  {
    hide StoredBit, Unflatten;
    var c := j * w + t;
    FlatIndex(k, w, cols, j, y, t);
    StoredEntry(2 * w, cols, s, y, c);
    StoredEntry(2 * w, cols, s, w + y, c);
    assert RaidSixMatrix(w, cols, blocks)[y][c] == Entry(w, blocks, y, c);
    assert RaidSixMatrix(w, cols, blocks)[w + y][c] == Entry(w, blocks, w + y, c);
  }
}

/** The whole way round: encode with a bitmatrix, lose devices, decode. */
module RoundTrips {
  import opened Arithmetic
  import opened Fields
  import opened LinearAlgebra
  import opened Elimination
  import opened Schedules
  import opened Compilers
  import opened Buffers
  import opened Encoders
  import opened Erasures
  import opened DecodingTheory
  import opened ScheduledDecoding
  import opened Codewords
  import opened Recovery
  import opened RecoveryLimits
  import opened ScheduledRecovery
  import opened RaidSix
  import opened RaidSixLayout
  import opened Residues
  import opened Liberation
  import opened LiberationCode
  import opened BlaumRoth
  import opened BlaumRothCode
  import opened LogTables
  import opened MatrixEncoding
  import opened MatrixDecoding
  import opened Independence
  import Expansion
  import Cauchy

  // ---- Losing devices: the listed ones hold anything.

  ghost function Overwritten<V>(S: seq<V>, erasures: seq<nat>, holds: seq<V>): (T: seq<V>)
    requires |holds| == |S|
    ensures |T| == |S|
  {
    seq(|S|, d requires 0 <= d < |S| => if d in erasures then holds[d] else S[d])
  }

  // The loss of the devices before device n.
  ghost function LostTo<V>(S: seq<V>, erasures: seq<nat>, holds: seq<V>, n: nat): (T: seq<V>)
    requires |holds| == |S|
    ensures |T| == |S|
  {
    seq(|S|, d requires 0 <= d < |S| => if d < n && d in erasures then holds[d] else S[d])
  }

  lemma LostStart<V>(S: seq<V>, erasures: seq<nat>, holds: seq<V>)
    requires |holds| == |S|
    ensures LostTo(S, erasures, holds, 0) == S && LostTo(S, erasures, holds, |S|) == Overwritten(S, erasures, holds)
  {
  }

  lemma LostNext<V>(S: seq<V>, erasures: seq<nat>, holds: seq<V>, d: nat)
    requires d < |S| == |holds|
    ensures LostTo(S, erasures, holds, d + 1) ==
      if d in erasures then LostTo(S, erasures, holds, d)[d := holds[d]] else LostTo(S, erasures, holds, d)
  {
  }

  method Lose<V>(ptrs: seq<array<V>>, erasures: seq<nat>, holds: seq<seq<V>>, size: nat)
    requires Distinct(ptrs) && AllSized(ptrs, size) && |holds| == |ptrs|
    requires forall d | 0 <= d < |holds| :: |holds[d]| == size
    modifies ptrs
    ensures Contents(ptrs) == Overwritten(old(Contents(ptrs)), erasures, holds)
  {
    hide LostTo, Overwritten;
    ghost var S := Contents(ptrs);
    LostStart(S, erasures, holds);
    for d := 0 to |ptrs|
      invariant Contents(ptrs) == LostTo(S, erasures, holds, d)
    {
      ghost var T := Contents(ptrs);
      LostNext(S, erasures, holds, d);
      if d in erasures {
        Fill(ptrs[d], holds[d]);
        Written(ptrs, d, T);
      }
    }
  }

  method Fill<V>(a: array<V>, v: seq<V>)
    requires |v| == a.Length
    modifies a
    ensures a[..] == v
  {
    for i := 0 to a.Length
      invariant a[..i] == v[..i]
    {
      a[i] := v[i];
    }
    assert a[..] == a[..a.Length];
  }

  // What is left after the loss is left of the codeword.
  lemma LossLeaves(k: nat, m: nat, w: nat, ps: nat, stripes: nat, cols: nat, B: seq<seq<bool>>, erasures: seq<nat>,
                   S: seq<seq<bool>>, holds: seq<seq<bool>>)
    requires 0 < w && IsBitmatrix(B, |B|, cols) && CodewordBuffers(w, ps, stripes, cols, B, S)
    requires Sized(S, k + m, Size(w, ps, stripes)) && Sized(holds, k + m, Size(w, ps, stripes))
    ensures Original(k, m, w, ps, stripes, cols, B, FlagsOf(k + m, erasures), S, Overwritten(S, erasures, holds))
  {
    hide CodewordBuffers, Size;
  }

  // ---- Encode, lose, decode.

  /** Whatever the erased devices hold after the loss, decoding gives back the data and its encoding. */
  method EncodeLoseDecode(k: nat, m: nat, w: nat, bitmatrix: array2<bool>, erasures: seq<nat>, holds: seq<seq<bool>>,
                          ptrs: seq<array<bool>>, size: nat, ps: nat, smart: bool, ghost stripes: nat) returns (r: int)
    requires 0 < w && Shape(k, m, w, bitmatrix.Length1, bitmatrix.Length0)
    requires RowsHaveOnes(bitmatrix.Length1, Rows(bitmatrix))
    requires NoRepeats(erasures) && (forall i | 0 <= i < |erasures| :: erasures[i] < k + m) && 0 < |erasures| <= m
    requires Decodable(w, k, bitmatrix.Length1, Rows(bitmatrix), FlagsOf(k + m, erasures))
    requires |ptrs| == k + m && Distinct(ptrs) && AllSized(ptrs, Size(w, ps, stripes)) && size == Size(w, ps, stripes)
    requires 0 < w * ps
    requires Sized(holds, k + m, Size(w, ps, stripes))
    modifies ptrs
    ensures r == 0
    ensures forall d | 0 <= d < k :: ptrs[d][..] == old(ptrs[d][..])
    ensures EncodedBuffers(w, ps, stripes, bitmatrix.Length1, Rows(bitmatrix), old(Contents(ptrs)), Contents(ptrs))
  {
    hide Shape, Size, Decodable, Outcome, Decoding, EncodedBuffers, Decoded, Recoverable, RowsHaveOnes, Original;
    ghost var cols, B, S0 := bitmatrix.Length1, Rows(bitmatrix), Contents(ptrs);
    RowsPositive(k, m, w, cols, bitmatrix.Length0);
    var operations; ghost var ops;
    if smart {
      operations, ops := SmartBitmatrixToSchedule(k, m, w, bitmatrix);
    } else {
      operations, ops := DumbBitmatrixToSchedule(k, m, w, bitmatrix);
    }
    ScheduleEncode(k, m, w, operations, ptrs, size, ps, stripes, cols, B, ops);
    ghost var S := Contents(ptrs);
    BuffersSized(ptrs, k + m, w, ps, stripes);
    assert Sized(S0, k + m, Size(w, ps, stripes));
    EncodingKeepsData(k, m, w, ps, stripes, cols, B, S0, S);
    EncodingGivesCodewords(w, ps, stripes, cols, B, S0, S);
    Lose(ptrs, erasures, holds, size);
    LossLeaves(k, m, w, ps, stripes, cols, B, erasures, S, holds);
    ghost var R, ops';
    ghost var now := Contents(ptrs);
    r, R, ops' := ScheduleDecodeLazy(k, m, w, bitmatrix, erasures, ptrs, size, ps, smart, stripes, S);
    AllNonzero(k, m, w, cols, B, FlagsOf(k + m, erasures));
    OutcomeRestored(k, m, w, ps, stripes, cols, B, FlagsOf(k + m, erasures), S, now, Contents(ptrs));
    assert Contents(ptrs) == S;
  }

  lemma OutcomeRestored(k: nat, m: nat, w: nat, ps: nat, stripes: nat, cols: nat, B: seq<seq<bool>>, e: seq<bool>,
                        S: seq<seq<bool>>, now: seq<seq<bool>>, T: seq<seq<bool>>)
    requires 0 < w && IsBitmatrix(B, |B|, cols) && Outcome(k, m, w, ps, stripes, cols, B, e, S, now, T)
    requires Decodable(w, k, cols, B, e) && NonzeroRows(w, k, cols, B, e)
    requires Original(k, m, w, ps, stripes, cols, B, e, S, now)
    ensures T == S
  {
  }

  lemma RowsPositive(k: nat, m: nat, w: nat, cols: nat, rows: nat)
    requires Shape(k, m, w, cols, rows) && 0 < w && 0 < m
    ensures 0 < rows
  {
    MulMonotone(1, m, w);
  }

  // Rows with ones, seen from the lost devices and back.
  lemma AllNonzero(k: nat, m: nat, w: nat, cols: nat, B: seq<seq<bool>>, e: seq<bool>)
    requires 0 < w && Shape(k, m, w, cols, |B|) && IsBitmatrix(B, |B|, cols) && RowsHaveOnes(cols, B) && |e| == k + m
    ensures NonzeroRows(w, k, cols, B, e)
  {
    hide Shape, Generator, Pos;
    forall d, y | k <= d < |e| && e[d] && 0 <= y < w
      ensures Ones(Generator(cols, B, Pos(w, d, y)), cols) > 0
    {
      var first := (d - k) * w;
      ColumnIntro(w, d - k, first);
      GeneratorRow(k, m, w, cols, B, d, y, first);
    }
  }

  lemma NonzeroEverywhere(k: nat, m: nat, w: nat, cols: nat, B: seq<seq<bool>>)
    requires 0 < w && Shape(k, m, w, cols, |B|) && IsBitmatrix(B, |B|, cols)
    requires NonzeroRows(w, k, cols, B, seq(k + m, d => true))
    ensures RowsHaveOnes(cols, B)
  {
    hide Shape, Generator, Pos, NonzeroRows;
    forall r | 0 <= r < |B|
      ensures Ones(B[r], cols) > 0
    {
      RowDevice(k, m, w, cols, |B|, r);
      OneNonzero(k, m, w, cols, B, k + r / w, r % w, r - r % w);
    }
  }

  lemma RowDevice(k: nat, m: nat, w: nat, cols: nat, rows: nat, r: nat)
    requires 0 < w && Shape(k, m, w, cols, rows) && r < rows
    ensures r / w < m && r % w < w && Column(w, r / w, 0, r - r % w)
  {
    DeviceBound(w, m, r);
  }

  lemma OneNonzero(k: nat, m: nat, w: nat, cols: nat, B: seq<seq<bool>>, d: nat, y: nat, first: nat)
    requires 0 < w && Shape(k, m, w, cols, |B|) && IsBitmatrix(B, |B|, cols) && k <= d < k + m && y < w
    requires Column(w, d - k, 0, first)
    requires NonzeroRows(w, k, cols, B, seq(k + m, d => true))
    ensures first + y < |B| && Ones(B[first + y], cols) > 0
  {
    hide Shape, Generator, Pos, Column;
    GeneratorRow(k, m, w, cols, B, d, y, first);
    assert seq(k + m, d => true)[d];
  }

  // ---- RAID-6.

  // A flat matrix as rows.
  method ToRows(rows: nat, cols: nat, flat: array<bool>) returns (matrix: array2<bool>)
    requires Column(cols, rows, 0, flat.Length)
    ensures fresh(matrix) && matrix.Length0 == rows && matrix.Length1 == cols
    ensures Rows(matrix) == Unflatten(rows, cols, flat[..])
  {
    ghost var M := Unflatten(rows, cols, flat[..]);
    matrix := new bool[rows, cols]((i, j) => false);
    for i := 0 to rows
      invariant forall r, c | 0 <= r < i && 0 <= c < cols :: matrix[r, c] == M[r][c]
    {
      for j := 0 to cols
        invariant forall r, c | 0 <= r < i && 0 <= c < cols :: matrix[r, c] == M[r][c]
        invariant forall c | 0 <= c < j :: matrix[i, c] == M[i][c]
      {
        Inside(rows, cols, flat.Length, i, j);
        matrix[i, j] := flat[i * cols + j];
      }
    }
    assert forall r | 0 <= r < rows :: Rows(matrix)[r] == M[r];
  }

  lemma Inside(rows: nat, cols: nat, length: nat, i: nat, j: nat)
    requires Column(cols, rows, 0, length) && i < rows && j < cols
    ensures i * cols + j < length
  {
    MulNext(i, rows, cols);
  }

  lemma FlatLength(k: nat, w: nat, length: nat)
    requires length == 2 * k * w * w && 0 < w
    ensures Column(k * w, 2 * w, 0, length) && Column(w, k, 0, k * w) && Shape(k, 2, w, k * w, 2 * w)
  {
    assert 2 * k * w * w == 2 * w * (k * w);
  }

  lemma TwoLost(k: nat, erasures: seq<nat>)
    requires NoRepeats(erasures) && (forall i | 0 <= i < |erasures| :: erasures[i] < k + 2) && |erasures| <= 2
    ensures |FlagsOf(k + 2, erasures)| == k + 2 && Recoverable(FlagsOf(k + 2, erasures), k)
    ensures |seq(k + 2, d => true)| == k + 2
  {
    hide Where;
    CountsMatch(k, 2, erasures);
  }

  // What every RAID-6 round trip asks of its caller.
  ghost predicate LossOfTwo(k: nat, w: nat, erasures: seq<nat>, holds: seq<seq<bool>>, ptrs: seq<array<bool>>,
                            size: nat, ps: nat, stripes: nat)
  {
    && NoRepeats(erasures) && (forall i | 0 <= i < |erasures| :: erasures[i] < k + 2) && 0 < |erasures| <= 2
    && |ptrs| == k + 2 && Distinct(ptrs) && AllSized(ptrs, Size(w, ps, stripes)) && size == Size(w, ps, stripes)
    && 0 < w * ps
    && Sized(holds, k + 2, Size(w, ps, stripes))
  }

  // The common part: the bitmatrix is the stored one of a RAID-6 code whose first block is the identity.
  method RaidSixRoundTrip(k: nat, w: nat, flat: array<bool>, ghost blocks: seq<seq<seq<bool>>>, erasures: seq<nat>,
                          holds: seq<seq<bool>>, ptrs: seq<array<bool>>, size: nat, ps: nat, smart: bool,
                          ghost stripes: nat) returns (r: int)
    requires 0 < w && 0 < k && IsBlocks(w, k, blocks) && blocks[0] == Identity(F2, w) && TwoErasures(w, k, blocks)
    requires flat.Length == 2 * k * w * w && Unflatten(2 * w, k * w, flat[..]) == RaidSixMatrix(w, k * w, blocks)
    requires LossOfTwo(k, w, erasures, holds, ptrs, size, ps, stripes) && flat !in ptrs
    modifies ptrs
    ensures r == 0 && forall d | 0 <= d < k :: ptrs[d][..] == old(ptrs[d][..])
    ensures EncodedBuffers(w, ps, stripes, k * w, RaidSixMatrix(w, k * w, blocks), old(Contents(ptrs)), Contents(ptrs))
  {
    hide Column, Shape, Size, Unflatten, RaidSixMatrix, Decodable, NonzeroRows, EncodedBuffers, RowsHaveOnes,
         Recoverable, TwoErasures, IsBlocks, Identity;
    ghost var cols, B := k * w, RaidSixMatrix(w, k * w, blocks);
    FlatLength(k, w, flat.Length);
    var bitmatrix := ToRows(2 * w, k * w, flat);
    TwoLost(k, erasures);
    RaidSixDecodable(k, w, cols, blocks, FlagsOf(k + 2, erasures));
    RaidSixNonzero(k, w, cols, blocks, seq(k + 2, d => true));
    NonzeroEverywhere(k, 2, w, cols, B);
    r := EncodeLoseDecode(k, 2, w, bitmatrix, erasures, holds, ptrs, size, ps, smart, stripes);
  }

  /** Liberation codes: for every odd prime w and k up to w, any one or two devices come back. */
  method LiberationRoundTrip(k: nat, w: nat, erasures: seq<nat>, holds: seq<seq<bool>>, ptrs: seq<array<bool>>,
                             size: nat, ps: nat, smart: bool, ghost stripes: nat) returns (r: int)
    requires Prime(w) && w % 2 == 1 && 0 < k <= w && LossOfTwo(k, w, erasures, holds, ptrs, size, ps, stripes)
    modifies ptrs
    ensures r == 0 && forall d | 0 <= d < k :: ptrs[d][..] == old(ptrs[d][..])
    ensures EncodedBuffers(w, ps, stripes, k * w, RaidSixMatrix(w, k * w, LiberationBlocks(k, w)), old(Contents(ptrs)),
                           Contents(ptrs))
  {
    hide Unflatten, RaidSixMatrix, EncodedBuffers, Size, NoRepeats, TwoErasures, LiberationBlock;
    var flat := LiberationCodingBitmatrix(k, w);
    LiberationTwoErasures(k, w);
    LiberationCode.FirstBlock(w);
    r := RaidSixRoundTrip(k, w, flat, LiberationBlocks(k, w), erasures, holds, ptrs, size, ps, smart, stripes);
  }

  /** Blaum-Roth codes: for every w with w + 1 an odd prime and k up to w. */
  method BlaumRothRoundTrip(k: nat, w: nat, erasures: seq<nat>, holds: seq<seq<bool>>, ptrs: seq<array<bool>>,
                            size: nat, ps: nat, smart: bool, ghost stripes: nat) returns (r: int)
    requires OddPrime(w + 1) && 0 < k <= w && LossOfTwo(k, w, erasures, holds, ptrs, size, ps, stripes)
    modifies ptrs
    ensures r == 0 && forall d | 0 <= d < k :: ptrs[d][..] == old(ptrs[d][..])
    ensures EncodedBuffers(w, ps, stripes, k * w, RaidSixMatrix(w, k * w, BlaumRothBlocks(k, w)), old(Contents(ptrs)),
                           Contents(ptrs))
  {
    hide Unflatten, RaidSixMatrix, EncodedBuffers, Size, NoRepeats, TwoErasures, BlaumRothBlock;
    var flat := BlaumRothCodingBitmatrix(k, w);
    BlaumRothTwoErasures(k, w);
    BlaumRothCode.FirstBlock(w);
    r := RaidSixRoundTrip(k, w, flat, BlaumRothBlocks(k, w), erasures, holds, ptrs, size, ps, smart, stripes);
  }

  // ---- Cauchy codes.

  /** The bitmatrix of the original Cauchy matrix, for k + m devices of up to 2^w: any m of them come back. */
  method CauchyRoundTrip(g: seq<bool>, k: nat, m: nat, erasures: seq<nat>, holds: seq<seq<bool>>,
                         ptrs: seq<array<bool>>, size: nat, ps: nat, smart: bool, ghost stripes: nat) returns (r: int)
    requires Primitive(g) && 0 < k && k + m <= Pow2(|g|)
    requires NoRepeats(erasures) && (forall i | 0 <= i < |erasures| :: erasures[i] < k + m) && 0 < |erasures| <= m
    requires |ptrs| == k + m && Distinct(ptrs) && AllSized(ptrs, Size(|g|, ps, stripes))
    requires size == Size(|g|, ps, stripes) && 0 < |g| * ps
    requires Sized(holds, k + m, Size(|g|, ps, stripes))
    modifies ptrs
    ensures r == 0 && forall d | 0 <= d < k :: ptrs[d][..] == old(ptrs[d][..])
  {
    hide Column, Shape, Size, Decodable, NonzeroRows, EncodedBuffers, RowsHaveOnes, Recoverable, DistinctPowers,
         AnyRows, Pow2;
    hide Expansion.Expanded, Systematic;
    var matrix := Cauchy.CauchyOriginal(g, k, m);
    var bitmatrix := Expansion.MatrixToBitmatrix(g, k, m, matrix);
    ghost var w, C, e := |g|, Rows(matrix), FlagsOf(k + m, erasures);
    ghost var rows, cols := m * w, k * w;
    ColumnIntro(w, m, rows);
    ColumnIntro(w, k, cols);
    Expansion.ToShape(w, k, m, cols, rows);
    CountsMatch(k, m, erasures);
    Expansion.ExpandedDecodable(g, k, m, C, rows, cols, e);
    Expansion.ExpandedNonzero(g, k, m, C, rows, cols, seq(k + m, d => true));
    NonzeroEverywhere(k, m, w, cols, Rows(bitmatrix));
    r := EncodeLoseDecode(k, m, |g|, bitmatrix, erasures, holds, ptrs, size, ps, smart, stripes);
  }

  // ---- Matrix codes.

  lemma LossIntact<E(!new)>(F: Field<E>, k: nat, M: seq<seq<E>>, erasures: seq<nat>, S: seq<seq<E>>, holds: seq<seq<E>>,
                            size: nat)
    requires MatrixCodeword(F, k, M, S, size) && |holds| == |S|
    ensures |S| == k + |M| && Intact(F, k, M, FlagsOf(k + |M|, erasures), S, Overwritten(S, erasures, holds), size)
  {
  }

  lemma OverwrittenElems<E(!new)>(F: Field<E>, devs: nat, erasures: seq<nat>, S: seq<seq<E>>, holds: seq<seq<E>>,
                                  size: nat)
    requires Elems(F, S, devs, size) && Elems(F, holds, devs, size)
    ensures Elems(F, Overwritten(S, erasures, holds), devs, size)
  {
  }

  lemma CodeRowsNonzero<E(!new)>(F: Field<E>, k: nat, C: seq<seq<E>>)
    requires F.Valid() && IsMatrix(F, C, |C|, k) && AnyRows(F, Systematic(F, k, C), k) && 0 < k
    ensures forall i | 0 <= i < |C| :: !ZeroRow(F, C[i], k)
  {
    hide AnyRows, Systematic;
    forall i | 0 <= i < |C|
      ensures !ZeroRow(F, C[i], k)
    {
      CodingNonzero(F, k, C, i, 0);
    }
  }

  // What the decoder finds after the loss.
  lemma AfterLoss<E(!new)>(F: Field<E>, k: nat, m: nat, M: seq<seq<E>>, erasures: seq<nat>, S0: seq<seq<E>>,
                           S: seq<seq<E>>, holds: seq<seq<E>>, size: nat)
    requires F.Valid() && 0 < k && IsMatrix(F, M, m, k) && AnyRows(F, Systematic(F, k, M), k)
    requires EncodedTo(F, k, M, S0, S, m, size) && Elems(F, holds, k + m, size)
    requires |Elements(erasures)| <= m && forall i | 0 <= i < |erasures| :: erasures[i] < k + m
    ensures |M| == m && |S| == k + m && Elems(F, Overwritten(S, erasures, holds), k + m, size)
    ensures Intact(F, k, M, FlagsOf(k + m, erasures), S, Overwritten(S, erasures, holds), size)
    ensures |Where(FlagsOf(k + m, erasures), 0, k + m, false)| >= k
    ensures MatrixDecodable(F, k, M, FlagsOf(k + m, erasures))
    ensures StaleZero(F, k, M, FlagsOf(k + m, erasures), Overwritten(S, erasures, holds), size)
  {
    hide AnyRows, Systematic, Elements, Where, Intact, StaleZero, MatrixDecodable, Flags;
    var e := FlagsOf(k + |M|, erasures);
    CodeRowsNonzero(F, k, M);
    EncodingGivesCodeword(F, k, M, S0, S, size);
    LossIntact(F, k, M, erasures, S, holds, size);
    OverwrittenElems(F, k + |M|, erasures, S, holds, size);
    FlagsAre(k + |M|, erasures);
    EnoughSurvive(e, erasures, k, |M|);
    AnyRowsAlwaysDecode(F, k, M, e);
    WrittenIsStaleZero(F, k, M, e, Overwritten(S, erasures, holds), size);
  }

  lemma ElemsSized<E(!new)>(F: Field<E>, S: seq<seq<E>>, devs: nat, size: nat)
    requires Elems(F, S, devs, size)
    ensures |S| == devs && forall d | 0 <= d < |S| :: |S[d]| == size
  {
  }

  lemma FlagsAre(n: nat, erasures: seq<nat>)
    requires forall i | 0 <= i < |erasures| :: erasures[i] < n
    ensures Flags(FlagsOf(n, erasures), erasures)
  {
  }

  /** A matrix any k of whose devices determine the data: encode, lose up to m devices, decode. */
  method MatrixRoundTrip<E(==,!new)>(F: Field<E>, k: nat, m: nat, w: int, matrix: array2<E>, rowKOnes: bool,
                                     erasures: seq<nat>, holds: seq<seq<E>>, ptrs: seq<array<E>>, size: nat)
    returns (r: int)
    requires F.Valid() && 0 < k && Distinct(ptrs) && AllSized(ptrs, size) && |ptrs| == k + m
    requires IsMatrix(F, Rows(matrix), m, k) && AnyRows(F, Systematic(F, k, Rows(matrix)), k)
    requires Elems(F, Contents(ptrs), k + m, size) && Elems(F, holds, k + m, size)
    requires forall i | 0 <= i < |erasures| :: erasures[i] < k + m
    requires |Elements(erasures)| <= m && (w == 8 || w == 16 || w == 32)
    requires rowKOnes ==> m > 0 && AllOnes(F, Rows(matrix)[0])
    modifies ptrs
    ensures r == 0 && EncodedTo(F, k, Rows(matrix), old(Contents(ptrs)), Contents(ptrs), m, size)
  {
    hide AnyRows, Systematic, Elements, Where, FlagsOf, Intact, StaleZero, Expected, MatrixDecodable, NeedsInverse,
         EncodedTo, MatrixCodeword, Elems, IsMatrix, Rows;
    ghost var M := Rows(matrix);
    ElemsSized(F, holds, k + m, size);
    MatrixEncode(F, k, m, matrix, ptrs, size);
    ghost var S := Contents(ptrs);
    AfterLoss(F, k, m, M, erasures, old(Contents(ptrs)), S, holds, size);
    Lose(ptrs, erasures, holds, size);
    r := MatrixDecode(F, k, m, w, matrix, rowKOnes, erasures, ptrs, size, S);
  }
}

/** RAID-6 encoding without multiplications (reed_sol.c): the first coding device is the sum of the data, the
    second is computed by Horner's rule with packed doublings. It refines encoding with the matrix whose rows are
    all ones and the powers of 2. */
module RaidSixEncode {
  import opened LinearAlgebra
  import opened Elimination
  import opened Buffers
  import opened Galois
  import opened LogTables
  import opened Expansion
  import opened PackedDoubling

  // ---- The matrix.

  ghost function OnesRow(g: seq<bool>, k: nat): (row: seq<seq<bool>>)
    ensures WordVec(|g|, row, k)
  {
    seq(k, i => One(|g|))
  }

  ghost function PowersRow(g: seq<bool>, k: nat): (row: seq<seq<bool>>)
    ensures WordVec(|g|, row, k)
  {
    seq(k, i requires 0 <= i < k => Power(g, i))
  }

  lemma NextPower(g: seq<bool>, tmp: seq<bool>, i: nat)
    requires |g| > 1 && tmp == Power(g, i)
    ensures Mul(g, tmp, Basis(|g|, 1)) == Power(g, i + 1)
  {
    TimesTwo(g, tmp);
  }

  /** reed_sol_r6_coding_matrix: null unless w is 8, 16 or 32. */
  method RaidSixCodingMatrix(g: seq<bool>, k: nat) returns (matrix: array2?<seq<bool>>)
    requires k > 0
    ensures matrix == null <==> |g| != 8 && |g| != 16 && |g| != 32
    ensures matrix != null ==> fresh(matrix) && matrix.Length0 == 2 && matrix.Length1 == k
    ensures matrix != null ==> Rows(matrix) == [OnesRow(g, k), PowersRow(g, k)]
    ensures matrix != null ==> forall c | 0 <= c < k :: matrix[0, c] == One(|g|)
    ensures matrix != null ==> matrix[1, 0] == One(|g|)
    ensures matrix != null ==> forall c | 0 < c < k :: matrix[1, c] == Mul(g, matrix[1, c - 1], Basis(|g|, 1))
  {
    hide Power, Mul;
    var w := |g|;
    if w != 8 && w != 16 && w != 32 {
      return null;
    }
    matrix := new seq<bool>[2, k]((i, j) => []);
    for i := 0 to k
      invariant forall c | 0 <= c < i :: matrix[0, c] == One(w)
    {
      matrix[0, i] := One(w);
    }
    matrix[1, 0] := One(w);
    var tmp := One(w);
    FirstPower(g);
    for i := 1 to k
      invariant tmp == Power(g, i - 1)
      invariant forall c | 0 <= c < k :: matrix[0, c] == One(w)
      invariant forall c | 0 <= c < i :: matrix[1, c] == Power(g, c)
      invariant forall c | 0 < c < i :: matrix[1, c] == Mul(g, matrix[1, c - 1], Basis(w, 1))
    {
      NextPower(g, tmp, i - 1);
      tmp := Mul(g, tmp, Basis(w, 1));
      matrix[1, i] := tmp;
    }
    assert Rows(matrix)[0] == OnesRow(g, k) && Rows(matrix)[1] == PowersRow(g, k);
  }

  lemma FirstPower(g: seq<bool>)
    ensures Power(g, 0) == One(|g|)
  {
  }

  // ---- Sums over the data.

  // The sum of the words before n, and Horner's sum of those from n on.
  function PlainSum(w: nat, x: seq<seq<bool>>, n: nat): (z: seq<bool>)
    requires n <= |x| && forall i | 0 <= i < |x| :: |x[i]| == w
    ensures |z| == w
  {
    if n == 0 then Zero(w) else Xor(PlainSum(w, x, n - 1), x[n - 1])
  }

  function Horner(g: seq<bool>, x: seq<seq<bool>>, n: nat): (z: seq<bool>)
    requires n < |x| && forall i | 0 <= i < |x| :: |x[i]| == |g|
    ensures |z| == |g|
    decreases |x| - n
  {
    if n == |x| - 1 then x[n] else Xor(Double(g, Horner(g, x, n + 1)), x[n])
  }

  lemma {:induction false} PlainSumIsDot(g: seq<bool>, x: seq<seq<bool>>, n: nat)
    requires n <= |x| && WordVec(|g|, x, |x|)
    ensures PlainSum(|g|, x, n) == WordDot(g, OnesRow(g, |x|), x, n)
  {
    if n > 0 {
      PlainSumIsDot(g, x, n - 1);
      MulCommutes(g, One(|g|), x[n - 1]);
      MulOne(g, x[n - 1]);
    }
  }

  lemma PowerTimes(g: seq<bool>, n: nat, x: seq<bool>)
    requires |x| == |g|
    ensures Mul(g, Power(g, n), x) == Doubled(g, x, n)
  {
    DoubledMul(g, One(|g|), x, n);
    MulCommutes(g, One(|g|), x);
    MulOne(g, x);
  }

  // What is left of the sum of powers, as n more doublings of Horner's sum.
  lemma {:induction false} HornerRest(g: seq<bool>, x: seq<seq<bool>>, n: nat)
    requires n < |x| && WordVec(|g|, x, |x|)
    ensures WordDot(g, PowersRow(g, |x|), x, |x|) ==
      Xor(WordDot(g, PowersRow(g, |x|), x, n), Doubled(g, Horner(g, x, n), n))
    decreases |x| - n
  {
    hide Xor, Double, Power, Mul;
    var row := PowersRow(g, |x|);
    PowerTimes(g, n, x[n]);
    if n < |x| - 1 {
      HornerRest(g, x, n + 1);
      var h := Horner(g, x, n + 1);
      DoubledXor(g, Double(g, h), x[n], n);
      DoubledSum(g, h, 1, n);
      assert Doubled(g, h, 1) == Double(g, Doubled(g, h, 0));
      Shuffle(WordDot(g, row, x, n), Doubled(g, x[n], n), Doubled(g, h, n + 1));
    }
  }

  lemma Shuffle(a: seq<bool>, b: seq<bool>, c: seq<bool>)
    requires |a| == |b| == |c|
    ensures Xor(Xor(a, b), c) == Xor(a, Xor(c, b))
  {
  }

  /** Horner's rule computes the row of powers. */
  lemma HornerIsDot(g: seq<bool>, x: seq<seq<bool>>)
    requires |x| > 0 && WordVec(|g|, x, |x|)
    ensures Horner(g, x, 0) == WordDot(g, PowersRow(g, |x|), x, |x|)
  {
    HornerRest(g, x, 0);
    XorLaws(Horner(g, x, 0), Horner(g, x, 0), Horner(g, x, 0));
  }

  // ---- Regions of 32-bit words.

  // The reed_sol_galois_w.._region_multby_2 routines.
  method RegionMultby2(g: seq<bool>, w: nat, p: bv32, region: array<bv32>)
    requires Reduction(g, w, p)
    modifies region
    ensures forall b | 0 <= b < region.Length :: DoubledLanes(g, w, old(region[b]), region[b])
  {
    hide Times2, Spread, Mask, Reduction, InEveryLane, DoubledLanes;
    ReductionWidth(g, w, p);
    var prim := p;
    if w == 32 {
      WholeLane(g, p);
    } else {
      prim := CopyToLanes(g, w, p);
    }
    for l1 := 0 to region.Length
      invariant forall b | 0 <= b < l1 :: DoubledLanes(g, w, old(region[b]), region[b])
      invariant forall b | l1 <= b < region.Length :: region[b] == old(region[b])
    {
      AllLanesDoubled(g, w, region[l1], prim);
      region[l1] := Times2(w, region[l1], prim);
    }
  }

  lemma ReductionWidth(g: seq<bool>, w: nat, p: bv32)
    requires Reduction(g, w, p)
    ensures LaneWidth(w) && |g| == w
  {
  }

  lemma WholeLane(g: seq<bool>, p: bv32)
    requires Reduction(g, 32, p)
    ensures InEveryLane(g, 32, p)
  {
    hide Bit;
  }

  /** Every lane of r is twice that of l. */
  ghost predicate DoubledLanes(g: seq<bool>, w: nat, l: bv32, r: bv32) {
    |g| == w && forall first | LaneStart(w, first) :: Lane(w, r, first) == Double(g, Lane(w, l, first))
  }

  lemma AllLanesDoubled(g: seq<bool>, w: nat, l: bv32, prim: bv32)
    requires LaneWidth(w) && |g| == w && InEveryLane(g, w, prim)
    ensures DoubledLanes(g, w, l, Times2(w, l, prim))
  {
    hide Lane, Double, Times2, InEveryLane, LaneStart;
    forall first | LaneStart(w, first)
      ensures Lane(w, Times2(w, l, prim), first) == Double(g, Lane(w, l, first))
    {
      LaneDoubled(g, w, l, prim, first);
    }
  }

  // memcpy of a region, or galois_region_xor onto it.
  method MoveRegion(src: array<bv32>, dst: array<bv32>, isXor: bool)
    requires src != dst && src.Length == dst.Length
    modifies dst
    ensures forall b | 0 <= b < dst.Length :: dst[b] == if isXor then Sum(old(dst[b]), src[b]) else src[b]
  {
    hide Sum;
    for b := 0 to dst.Length
      invariant forall b' | 0 <= b' < b :: dst[b'] == if isXor then Sum(old(dst[b']), src[b']) else src[b']
      invariant forall b' | b <= b' < dst.Length :: dst[b'] == old(dst[b'])
    {
      dst[b] := if isXor then Sum(dst[b], src[b]) else src[b];
    }
  }

  // The elements that the data devices hold in one lane of word b.
  ghost function LaneData(w: nat, D: seq<seq<bv32>>, b: nat, first: nat): (x: seq<seq<bool>>)
    requires forall i | 0 <= i < |D| :: b < |D[i]|
    ensures |x| == |D| && forall i | 0 <= i < |x| :: |x[i]| == w
  {
    seq(|D|, i requires 0 <= i < |D| => Lane(w, D[i][b], first))
  }

  // The first coding device after n data devices, and the second after all from n on.
  ghost predicate SumLanes(w: nat, D: seq<seq<bv32>>, b: nat, n: nat, r: bv32)
    requires (forall i | 0 <= i < |D| :: b < |D[i]|) && n <= |D|
  {
    forall first | LaneStart(w, first) :: Lane(w, r, first) == PlainSum(w, LaneData(w, D, b, first), n)
  }

  ghost predicate HornerLanes(g: seq<bool>, w: nat, D: seq<seq<bv32>>, b: nat, n: nat, r: bv32)
    requires (forall i | 0 <= i < |D| :: b < |D[i]|) && n < |D| && |g| == w
  {
    forall first | LaneStart(w, first) :: Lane(w, r, first) == Horner(g, LaneData(w, D, b, first), n)
  }

  lemma SumFirst(w: nat, D: seq<seq<bv32>>, b: nat)
    requires |D| > 0 && forall i | 0 <= i < |D| :: b < |D[i]|
    ensures SumLanes(w, D, b, 1, D[0][b])
  {
    forall first | LaneStart(w, first)
      ensures Lane(w, D[0][b], first) == PlainSum(w, LaneData(w, D, b, first), 1)
    {
      var x := LaneData(w, D, b, first);
      assert PlainSum(w, x, 0) == Zero(w);
      XorLaws(x[0], x[0], x[0]);
    }
  }

  lemma SumNext(w: nat, D: seq<seq<bv32>>, b: nat, n: nat, r: bv32)
    requires (forall i | 0 <= i < |D| :: b < |D[i]|) && n < |D| && SumLanes(w, D, b, n, r)
    ensures SumLanes(w, D, b, n + 1, Sum(r, D[n][b]))
  {
    hide Lane, LaneStart, Sum, Xor;
    forall first | LaneStart(w, first)
      ensures Lane(w, Sum(r, D[n][b]), first) == PlainSum(w, LaneData(w, D, b, first), n + 1)
    {
      LaneXor(w, r, D[n][b], first);
    }
  }

  // The sum of the words at position b of the first n devices.
  function SumWords(D: seq<seq<bv32>>, b: nat, n: nat): bv32
    requires (forall i | 0 <= i < |D| :: b < |D[i]|) && 0 < n <= |D|
  {
    if n == 1 then D[0][b] else Sum(SumWords(D, b, n - 1), D[n - 1][b])
  }

  // It is the sum in every lane, whatever the width.
  lemma {:induction false} SumWordsLanes(w: nat, D: seq<seq<bv32>>, b: nat, n: nat)
    requires (forall i | 0 <= i < |D| :: b < |D[i]|) && 0 < n <= |D|
    ensures SumLanes(w, D, b, n, SumWords(D, b, n))
  {
    hide SumLanes, Sum;
    if n == 1 {
      SumFirst(w, D, b);
    } else {
      SumWordsLanes(w, D, b, n - 1);
      SumNext(w, D, b, n - 1, SumWords(D, b, n - 1));
    }
  }

  lemma HornerFirst(g: seq<bool>, w: nat, D: seq<seq<bv32>>, b: nat)
    requires |D| > 0 && |g| == w && forall i | 0 <= i < |D| :: b < |D[i]|
    ensures HornerLanes(g, w, D, b, |D| - 1, D[|D| - 1][b])
  {
  }

  lemma HornerNext(g: seq<bool>, w: nat, D: seq<seq<bv32>>, b: nat, n: nat, r: bv32, r': bv32)
    requires (forall i | 0 <= i < |D| :: b < |D[i]|) && 0 < n < |D| && |g| == w && HornerLanes(g, w, D, b, n, r)
    requires DoubledLanes(g, w, r, r')
    ensures HornerLanes(g, w, D, b, n - 1, Sum(r', D[n - 1][b]))
  {
    hide Lane, LaneStart, Double, Sum, Xor;
    forall first | LaneStart(w, first)
      ensures Lane(w, Sum(r', D[n - 1][b]), first) == Horner(g, LaneData(w, D, b, first), n - 1)
    {
      LaneXor(w, r', D[n - 1][b], first);
    }
  }

  // ---- reed_sol_r6_encode.

  // The parity device.
  method EncodeParity(data: seq<array<bv32>>, coding: array<bv32>, size: nat)
    requires |data| > 0 && AllSized(data, size) && coding.Length == size && coding !in data
    modifies coding
    ensures forall b | 0 <= b < size :: coding[b] == SumWords(Contents(data), b, |data|)
  {
    hide Sum;
    ghost var D := Contents(data);
    MoveRegion(data[0], coding, false);
    for i := 1 to |data|
      invariant Contents(data) == D
      invariant forall b | 0 <= b < size :: coding[b] == SumWords(D, b, i)
    {
      MoveRegion(data[i], coding, true);
      assert forall d | 0 <= d < |data| :: data[d][..] == D[d];
    }
  }

  // The device of powers: 0 when there is no doubling for this w.
  method EncodePowers(g: seq<bool>, w: nat, p: bv32, data: seq<array<bv32>>, coding: array<bv32>, size: nat)
    returns (r: int)
    requires (LaneWidth(w) ==> Reduction(g, w, p)) && |data| > 0 && AllSized(data, size) && coding.Length == size
    requires coding !in data
    modifies coding
    ensures r == if LaneWidth(w) || |data| == 1 then 1 else 0
    ensures LaneWidth(w) ==> |g| == w && forall b | 0 <= b < size :: HornerLanes(g, w, Contents(data), b, 0, coding[b])
    ensures !LaneWidth(w) ==> coding[..] == data[|data| - 1][..]
  {
    hide HornerLanes, DoubledLanes, Reduction, Sum;
    var k := |data|;
    MoveRegion(data[k - 1], coding, false);
    if w != 8 && w != 16 && w != 32 {
      return if k > 1 then 0 else 1;
    }
    ReductionWidth(g, w, p);
    ghost var D := Contents(data);
    forall b | 0 <= b < size
      ensures HornerLanes(g, w, D, b, k - 1, coding[b])
    {
      HornerFirst(g, w, D, b);
    }
    for i := k - 1 downto 0
      invariant Contents(data) == D
      invariant forall b | 0 <= b < size :: HornerLanes(g, w, D, b, i, coding[b])
    {
      ghost var was := coding[..];
      RegionMultby2(g, w, p, coding);
      ghost var twice := coding[..];
      assert data[i][..] == D[i];
      MoveRegion(data[i], coding, true);
      forall b | 0 <= b < size
        ensures HornerLanes(g, w, D, b, i, coding[b])
      {
        assert DoubledLanes(g, w, was[b], twice[b]);
        HornerNext(g, w, D, b, i + 1, was[b], twice[b]);
      }
      assert forall d | 0 <= d < |data| :: data[d][..] == D[d];
    }
    return 1;
  }

  /** Lane by lane, the two words are the products of the matrix rows with the data. */
  ghost predicate EncodedWord(g: seq<bool>, w: nat, D: seq<seq<bv32>>, b: nat, p: bv32, q: bv32) {
    && |g| == w && (forall i | 0 <= i < |D| :: b < |D[i]|)
    && forall first | LaneStart(w, first) ::
         EncodedLane(g, w, LaneData(w, D, b, first), Lane(w, p, first), Lane(w, q, first))
  }

  ghost predicate EncodedLane(g: seq<bool>, w: nat, x: seq<seq<bool>>, p: seq<bool>, q: seq<bool>)
    requires WordVec(|g|, x, |x|)
  {
    && p == Dot(GF(g), OnesRow(g, |x|), x)
    && q == Dot(GF(g), PowersRow(g, |x|), x)
  }

  lemma WordEncoded(g: seq<bool>, w: nat, D: seq<seq<bv32>>, b: nat, p: bv32, q: bv32)
    requires |g| == w && |D| > 0 && forall i | 0 <= i < |D| :: b < |D[i]|
    requires SumLanes(w, D, b, |D|, p) && HornerLanes(g, w, D, b, 0, q)
    ensures EncodedWord(g, w, D, b, p, q)
  {
    hide Lane, LaneStart, PlainSum, Horner, WordDot;
    forall first | LaneStart(w, first)
      ensures EncodedLane(g, w, LaneData(w, D, b, first), Lane(w, p, first), Lane(w, q, first))
    {
      var x := LaneData(w, D, b, first);
      PlainSumIsDot(g, x, |x|);
      HornerIsDot(g, x);
    }
  }

  /** reed_sol_r6_encode. For w of 8, 16 or 32 both coding devices are the products of the matrix of
      reed_sol_r6_coding_matrix with the data. For another w the first one is the sum of the data and the second a
      copy of the last data device; that is refused when there is more than one data device. */
  method RaidSixEncode(g: seq<bool>, w: nat, p: bv32, data: seq<array<bv32>>, coding: seq<array<bv32>>, size: nat)
    returns (r: int)
    requires (LaneWidth(w) ==> Reduction(g, w, p)) && |data| > 0 && |coding| == 2 && coding[0] != coding[1]
    requires AllSized(data, size) && AllSized(coding, size) && coding[0] !in data && coding[1] !in data
    modifies coding
    ensures r == if LaneWidth(w) || |data| == 1 then 1 else 0
    ensures Contents(data) == old(Contents(data))
    ensures LaneWidth(w) ==>
      forall b | 0 <= b < size :: EncodedWord(g, w, Contents(data), b, coding[0][b], coding[1][b])
    ensures !LaneWidth(w) ==> coding[1][..] == data[|data| - 1][..]
    ensures forall b | 0 <= b < size :: coding[0][b] == SumWords(Contents(data), b, |data|)
  {
    hide SumLanes, HornerLanes, EncodedWord, Reduction, LaneWidth;
    ghost var D := Contents(data);
    EncodeParity(data, coding[0], size);
    ghost var parity := coding[0][..];
    r := EncodePowers(g, w, p, data, coding[1], size);
    assert forall d | 0 <= d < |data| :: data[d][..] == D[d];
    if LaneWidth(w) {
      forall b | 0 <= b < size
        ensures EncodedWord(g, w, D, b, coding[0][b], coding[1][b])
      {
        assert coding[0][b] == parity[b];
        SumWordsLanes(w, D, b, |data|);
        WordEncoded(g, w, D, b, coding[0][b], coding[1][b]);
      }
    }
  }
}

/** The Mojette transform: projections of an image along lines, and the reconstruction of the image.

    Projection i has a slope p. Its bin b adds up, by xor, the pixels (l, c) with c + l * p - offset = b,
    one column at most in every row l. The inverse keeps a front: in row l the columns below lo[l] are
    known. Every bin then holds the sum of its pixels that are still unknown. */
module Mojette {
  import opened Arithmetic

  datatype Angle = Angle(p: int, q: int)

  /** A pixel or a bin, combined by xor. */
  type Word = bv64

  datatype Projection = Projection(angle: Angle, bins: array<Word>)

  function Xor(a: Word, b: Word): Word { a ^ b }

  lemma XorSelf(a: Word)
    ensures Xor(a, a) == 0 && Xor(0, a) == a && Xor(a, 0) == a
  {
  }

  lemma XorTwice(a: Word, b: Word)
    ensures Xor(Xor(a, b), b) == a
  {
  }

  lemma XorSwap(a: Word, b: Word, c: Word)
    ensures Xor(Xor(a, b), c) == Xor(Xor(a, c), b)
  {
    hide Xor;
    XorOfThree(a, b, c);
    XorOfThree(a, c, b);
    WordSwap(a, b, c);
  }

  lemma XorOfThree(a: Word, b: Word, c: Word)
    ensures Xor(Xor(a, b), c) == (a ^ b) ^ c
  {
  }

  lemma WordSwap(a: Word, b: Word, c: Word)
    ensures (a ^ b) ^ c == (a ^ c) ^ b
  {
  }

  // The distance from the line through pixel (0, 0) to the first bin.
  function Offset(rows: nat, p: int): int {
    if p < 0 then (rows - 1) * p else 0
  }

  // The column that the line of bin b crosses in row l.
  function Crosses(rows: nat, p: int, b: int, l: nat): int {
    b + Offset(rows, p) - l * p
  }

  ghost predicate IsImage(img: seq<seq<Word>>, rows: nat, cols: nat) {
    |img| == rows && forall l | 0 <= l < rows :: |img[l]| == cols
  }

  predicate Within(lo: int, x: int, hi: int) { lo <= x < hi }

  // The pixel of row l on the line of bin b, if its column is in [lo[l], hi[l]).
  ghost function PixelOn(img: seq<seq<Word>>, rows: nat, lo: seq<int>, hi: seq<int>, p: int, b: int, l: nat): Word
    requires l < |img| && l < |lo| && l < |hi|
  {
    var c := Crosses(rows, p, b, l);
    if 0 <= c < |img[l]| && Within(lo[l], c, hi[l]) then img[l][c] else 0
  }

  // The sum of these pixels over the first n rows.
  ghost function LineSum(img: seq<seq<Word>>, rows: nat, lo: seq<int>, hi: seq<int>, p: int, b: int, n: nat): Word
    requires n <= |img| && n <= |lo| && n <= |hi|
  {
    if n == 0 then 0 else Xor(LineSum(img, rows, lo, hi, p, b, n - 1), PixelOn(img, rows, lo, hi, p, b, n - 1))
  }

  // Adding or removing the pixel (l, c) changes one bin of every projection.
  lemma {:induction false} LineSumFlip(img: seq<seq<Word>>, rows: nat, lo: seq<int>, hi: seq<int>, lo': seq<int>,
                                       hi': seq<int>, p: int, b: int, n: nat, l: nat, c: nat)
    requires n <= |img| == |lo| == |hi| == |lo'| == |hi'| && l < |img| && c < |img[l]|
    requires forall k | 0 <= k < |lo| && k != l :: lo'[k] == lo[k] && hi'[k] == hi[k]
    requires forall x | 0 <= x < |img[l]| :: Within(lo'[l], x, hi'[l]) == (Within(lo[l], x, hi[l]) != (x == c))
    ensures LineSum(img, rows, lo', hi', p, b, n) ==
      if l < n && Crosses(rows, p, b, l) == c then Xor(LineSum(img, rows, lo, hi, p, b, n), img[l][c])
      else LineSum(img, rows, lo, hi, p, b, n)
  {
    hide Xor, Crosses;
    if n > 0 {
      LineSumFlip(img, rows, lo, hi, lo', hi', p, b, n - 1, l, c);
      var s, s' := LineSum(img, rows, lo, hi, p, b, n - 1), LineSum(img, rows, lo', hi', p, b, n - 1);
      var x, x' := PixelOn(img, rows, lo, hi, p, b, n - 1), PixelOn(img, rows, lo', hi', p, b, n - 1);
      if l < n - 1 {
        assert x == x';
        XorSwap(s, x, img[l][c]);
      } else if l == n - 1 {
        XorSelf(s);
        XorTwice(s, img[l][c]);
      } else {
        assert x == x';
      }
    }
  }

  // A line with no unknown pixel except in row l holds that pixel.
  lemma {:induction false} LineSumSingle(img: seq<seq<Word>>, rows: nat, lo: seq<int>, hi: seq<int>, p: int, b: int,
                                         n: nat, l: nat)
    requires n <= |img| == |lo| == |hi| && l < |img|
    requires forall k | 0 <= k < n && k != l :: PixelOn(img, rows, lo, hi, p, b, k) == 0
    ensures LineSum(img, rows, lo, hi, p, b, n) == if l < n then PixelOn(img, rows, lo, hi, p, b, l) else 0
  {
    hide Xor, PixelOn;
    if n > 0 {
      LineSumSingle(img, rows, lo, hi, p, b, n - 1, l);
      XorSelf(PixelOn(img, rows, lo, hi, p, b, l));
      XorSelf(0);
    }
  }

  lemma {:induction false} LineSumEmpty(img: seq<seq<Word>>, rows: nat, lo: seq<int>, hi: seq<int>, p: int, b: int,
                                        n: nat)
    requires n <= |img| == |lo| == |hi| && forall l | 0 <= l < n :: lo[l] >= hi[l]
    ensures LineSum(img, rows, lo, hi, p, b, n) == 0
  {
    hide Xor;
    if n > 0 {
      LineSumEmpty(img, rows, lo, hi, p, b, n - 1);
      XorSelf(0);
    }
  }

  // ---- The front.

  ghost function SumOf(p: seq<int>, a: nat, b: nat): int
    requires a <= b <= |p|
  {
    if a == b then 0 else SumOf(p, a, b - 1) + p[b - 1]
  }

  lemma SumSplit(p: seq<int>, a: nat, b: nat, c: nat)
    requires a <= b <= c <= |p|
    ensures SumOf(p, a, c) == SumOf(p, a, b) + SumOf(p, b, c)
  {
  }

  ghost predicate Decreasing(p: seq<int>) {
    forall i, j | 0 <= i < j < |p| :: p[i] > p[j]
  }

  function Max(a: int, b: int): int { if a > b then a else b }

  // The parts of the slopes a to b that are negative, or positive, in size.
  function Part(p: seq<int>, sign: int, a: nat, b: nat): (s: int)
    requires a <= b <= |p|
    ensures s >= 0
  {
    if a == b then 0 else Part(p, sign, a, b - 1) + Max(0, sign * p[b - 1])
  }

  lemma PartBounds(p: seq<int>, a: nat, b: nat)
    requires a <= b <= |p|
    ensures -Part(p, -1, a, b) <= SumOf(p, a, b) <= Part(p, 1, a, b)
  {
  }

  lemma PartSplit(p: seq<int>, sign: int, a: nat, b: nat, c: nat)
    requires a <= b <= c <= |p|
    ensures Part(p, sign, a, c) == Part(p, sign, a, b) + Part(p, sign, b, c)
  {
  }

  /** Where the front of the last row starts. */
  ghost function Base(p: seq<int>): int
    requires |p| > 0
  {
    var r := |p| - 1;
    Max(Max(0, -p[r]) + (if r <= 1 then 0 else Part(p, -1, 1, r)),
        Max(0, p[r]) + (if r <= 1 then 0 else Part(p, 1, 1, r)))
  }

  /** How far the front of row l is ahead. */
  ghost function KOffset(p: seq<int>, l: nat): int
    requires l < |p|
  {
    Base(p) + SumOf(p, l + 1, |p|)
  }

  lemma KOffsetNonnegative(p: seq<int>, l: nat)
    requires l < |p|
    ensures KOffset(p, l) >= 0
  {
    var r := |p| - 1;
    PartBounds(p, l + 1, |p|);
    if l < r {
      PartSplit(p, -1, 1, l + 1, |p|);
      assert Part(p, -1, 1, |p|) == Part(p, -1, 1, r) + Max(0, -p[r]);
      assert Part(p, -1, 1, 1) == 0;
    }
  }

  // The offsets are convex in l, so the largest is at an end.
  lemma KOffsetConvex(p: seq<int>, l: nat)
    requires l < |p| && Decreasing(p)
    ensures KOffset(p, l) <= Max(KOffset(p, 0), KOffset(p, |p| - 1))
  {
    if p[l] >= 0 {
      SumSplit(p, 1, l + 1, |p|);
      NonnegativeSum(p, 1, l + 1);
    } else {
      NegativeSum(p, l + 1, |p|);
      assert SumOf(p, |p|, |p|) == 0;
    }
  }

  lemma NonnegativeSum(p: seq<int>, a: nat, b: nat)
    requires a <= b <= |p| && forall i | a <= i < b :: p[i] >= 0
    ensures SumOf(p, a, b) >= 0
  {
  }

  lemma NegativeSum(p: seq<int>, a: nat, b: nat)
    requires a <= b <= |p| && forall i | a <= i < b :: p[i] <= 0
    ensures SumOf(p, a, b) <= 0
  {
  }

  // Steeper slopes come first, so the front of an earlier row keeps ahead of any line through row l ...
  lemma SlopeAbove(p: seq<int>, l: nat, a: nat)
    requires a <= l < |p| && Decreasing(p)
    ensures SumOf(p, a + 1, l + 1) >= (l - a) * p[l]
    decreases l - a
  {
    if a < l {
      SlopeAbove(p, l, a + 1);
      SumSplit(p, a + 1, a + 2, l + 1);
      assert SumOf(p, a + 1, a + 2) == SumOf(p, a + 1, a + 1) + p[a + 1];
      assert (l - a) * p[l] == (l - (a + 1)) * p[l] + p[l];
    }
  }

  // ... and so does the front of a later row.
  lemma SlopeBelow(p: seq<int>, l: nat, a: nat)
    requires l <= a < |p| && Decreasing(p)
    ensures SumOf(p, l + 1, a + 1) <= (a - l) * p[l] - (a - l)
  {
    if l < a {
      SlopeBelow(p, l, a - 1);
      assert (a - l) * p[l] == (a - 1 - l) * p[l] + p[l];
    }
  }

  function Clamp(x: int, cols: nat): (r: nat)
    ensures r <= cols
  {
    if x < 0 then 0 else if x > cols then cols else x
  }

  /** The columns known in every row once the rows before l0 have taken step k. */
  ghost function Front(p: seq<int>, cols: nat, k: int, l0: nat): (lo: seq<int>)
    ensures |lo| == |p|
  {
    seq(|p|, l requires 0 <= l < |p| => Clamp(k + KOffset(p, l) + if l < l0 then 1 else 0, cols))
  }

  ghost function Full(rows: nat, cols: nat): seq<int> { seq(rows, l => cols) }

  /** The argument that the inverse rests on: when row l takes step k, its line has one unknown pixel. */
  lemma OneUnknown(p: seq<int>, rows: nat, cols: nat, img: seq<seq<Word>>, k: int, l: nat, a: nat)
    requires |p| == rows && Decreasing(p) && l < rows && a < rows && a != l && IsImage(img, rows, cols)
    requires 0 <= k + KOffset(p, l) < cols
    ensures PixelOn(img, rows, Front(p, cols, k, l), Full(rows, cols), p[l],
                    k + KOffset(p, l) + l * p[l] - Offset(rows, p[l]), a) == 0
  {
    var c := k + KOffset(p, l);
    var c' := Crosses(rows, p[l], c + l * p[l] - Offset(rows, p[l]), a);
    assert c' == c + l * p[l] - a * p[l];
    if a < l {
      assert l * p[l] - a * p[l] == (l - a) * p[l];
      SlopeAbove(p, l, a);
      SumSplit(p, a + 1, l + 1, |p|);
    } else {
      assert a * p[l] - l * p[l] == (a - l) * p[l];
      SlopeBelow(p, l, a);
      SumSplit(p, l + 1, a + 1, |p|);
    }
  }

  lemma FrontSkip(p: seq<int>, cols: nat, k: int, l: nat)
    requires l < |p| && !(0 <= k + KOffset(p, l) < cols)
    ensures Front(p, cols, k, l) == Front(p, cols, k, l + 1)
  {
  }

  lemma FrontTurn(p: seq<int>, cols: nat, k: int)
    ensures Front(p, cols, k, |p|) == Front(p, cols, k + 1, 0)
  {
  }

  lemma FrontStart(p: seq<int>, cols: nat)
    requires |p| > 0 && Decreasing(p)
    ensures Front(p, cols, -Max(KOffset(p, 0), KOffset(p, |p| - 1)), 0) == seq(|p|, l => 0)
  {
    forall l | 0 <= l < |p|
      ensures KOffset(p, l) <= Max(KOffset(p, 0), KOffset(p, |p| - 1))
    {
      KOffsetConvex(p, l);
    }
  }

  lemma FrontEnd(p: seq<int>, cols: nat)
    requires Decreasing(p)
    ensures Front(p, cols, cols, 0) == Full(|p|, cols)
  {
    forall l | 0 <= l < |p|
      ensures KOffset(p, l) >= 0
    {
      KOffsetNonnegative(p, l);
    }
  }

  // Row l at step k is left of the right edge, or has not entered the image yet.
  ghost predicate Inside(p: seq<int>, cols: nat, k: int, l: nat)
    requires l < |p|
  {
    0 <= k + KOffset(p, l) ==> k + KOffset(p, l) < cols
  }

  /** The first phase does not test the right edge. It stays inside the image exactly when no front
      starts more than a row's length ahead. */
  lemma FirstPhaseInside(p: seq<int>, cols: nat)
    requires |p| > 0 && Decreasing(p)
    ensures var m := Max(KOffset(p, 0), KOffset(p, |p| - 1));
      (forall k, l | -m <= k < 0 && 0 <= l < |p| :: Inside(p, cols, k, l)) <==> m <= cols
  {
    var m := Max(KOffset(p, 0), KOffset(p, |p| - 1));
    forall l | 0 <= l < |p|
      ensures KOffset(p, l) <= m
    {
      KOffsetConvex(p, l);
    }
    if m > cols {
      var l := if KOffset(p, 0) == m then 0 else |p| - 1;
      assert !Inside(p, cols, -1, l);
    }
  }

  // ---- Bins and pixels in arrays.

  function BinOf(rows: nat, p: int, l: nat, c: nat): int { c + l * p - Offset(rows, p) }

  /** The number of bins that slope p needs. */
  function BinCount(rows: nat, cols: nat, p: int): int {
    cols + (rows - 1) * (if p < 0 then -p else p)
  }

  lemma BinFacts(rows: nat, cols: nat, p: int, l: nat, c: nat)
    requires l < rows && c < cols
    ensures 0 <= BinOf(rows, p, l, c) < BinCount(rows, cols, p)
    ensures Crosses(rows, p, BinOf(rows, p, l, c), l) == c
  {
    if p < 0 {
      assert l * p - (rows - 1) * p == (rows - 1 - l) * -p;
      assert (rows - 1 - l) * -p <= (rows - 1) * -p by { MulMonotone(rows - 1 - l, rows - 1, -p); }
      assert (rows - 1 - l) * -p >= 0;
    } else {
      assert l * p <= (rows - 1) * p by { MulMonotone(l, rows - 1, p); }
      assert l * p >= 0;
    }
  }

  // A bin other than the one of (l, c) does not cross row l at c.
  lemma OtherBin(rows: nat, cols: nat, p: int, l: nat, c: nat, b: int)
    ensures Crosses(rows, p, b, l) == c <==> b == BinOf(rows, p, l, c)
  {
  }

  /** Pixel (l, c) is on the line of bin c + l * p, counted from the least such sum over the rows of column 0. */
  lemma BinIsSum(rows: nat, p: int, l: nat, c: nat, b: int, least: int)
    requires l < rows
    requires (forall r | 0 <= r < rows :: least <= r * p) && exists r | 0 <= r < rows :: least == r * p
    ensures Crosses(rows, p, b, l) == c <==> b == c + l * p - least
  {
    var r :| 0 <= r < rows && least == r * p;
    assert least <= 0 * p && least <= (rows - 1) * p;
    if p < 0 {
      MulMonotone(r, rows - 1, -p);
      assert r * p == -(r * -p) && (rows - 1) * p == -((rows - 1) * -p);
    } else {
      assert r * p >= 0;
    }
  }

  function Pix(cols: nat, l: nat, c: nat): nat { l * cols + c }

  lemma PixFacts(rows: nat, cols: nat, l: nat, c: nat, l': nat, c': nat)
    requires l < rows && c < cols && l' < rows && c' < cols
    ensures Pix(cols, l, c) < rows * cols
    ensures Pix(cols, l, c) == Pix(cols, l', c') ==> l == l' && c == c'
  {
    MulMonotone(l + 1, rows, cols);
    assert (l + 1) * cols == l * cols + cols;
    if l < l' {
      MulMonotone(l + 1, l', cols);
    } else if l' < l {
      MulMonotone(l' + 1, l, cols);
      assert (l' + 1) * cols == l' * cols + cols;
    }
  }

  /** Every bin holds the sum of the pixels of its line that are in [lo, hi). */
  ghost predicate Holds(bins: array<Word>, img: seq<seq<Word>>, rows: nat, lo: seq<int>, hi: seq<int>, p: int)
    reads bins
  {
    |img| == |lo| == |hi| == rows &&
    forall b | 0 <= b < bins.Length :: bins[b] == LineSum(img, rows, lo, hi, p, b, rows)
  }

  // The pixels left of lo are in the image array.
  ghost predicate Known(support: array<Word>, img: seq<seq<Word>>, rows: nat, cols: nat, lo: seq<int>)
    reads support
  {
    && IsImage(img, rows, cols) && |lo| == rows && support.Length == rows * cols
    && forall l, c | 0 <= l < rows && 0 <= c < cols && c < lo[l] ::
         Pix(cols, l, c) < support.Length && support[Pix(cols, l, c)] == img[l][c]
  }

  /** Slopes with q = 1, enough bins, and no two projections sharing an array. */
  ghost predicate Usable(projs: seq<Projection>, rows: nat, cols: nat) {
    && (forall i | 0 <= i < |projs| ::
          projs[i].angle.q == 1 && projs[i].bins.Length >= BinCount(rows, cols, projs[i].angle.p))
    && (forall i, j | 0 <= i < j < |projs| :: projs[i].bins != projs[j].bins)
  }

  // Change one bin by the pixel (l, c).
  method FlipBin(bins: array<Word>, index: int, pixel: Word, ghost img: seq<seq<Word>>, ghost rows: nat,
                 ghost cols: nat, ghost lo: seq<int>, ghost hi: seq<int>, ghost lo': seq<int>, ghost hi': seq<int>,
                 ghost p: int, ghost l: nat, ghost c: nat)
    requires IsImage(img, rows, cols) && l < rows && c < cols && pixel == img[l][c]
    requires bins.Length >= BinCount(rows, cols, p) && index == BinOf(rows, p, l, c)
    requires |lo'| == |hi'| == rows && Holds(bins, img, rows, lo, hi, p)
    requires forall k | 0 <= k < rows && k != l :: lo'[k] == lo[k] && hi'[k] == hi[k]
    requires forall x | 0 <= x < cols :: Within(lo'[l], x, hi'[l]) == (Within(lo[l], x, hi[l]) != (x == c))
    modifies bins
    ensures Holds(bins, img, rows, lo', hi', p)
  {
    hide LineSum, Crosses, BinOf, BinCount;
    BinFacts(rows, cols, p, l, c);
    bins[index] := Xor(bins[index], pixel);
    forall b | 0 <= b < bins.Length
      ensures bins[b] == LineSum(img, rows, lo', hi', p, b, rows)
    {
      LineSumFlip(img, rows, lo, hi, lo', hi', p, b, rows, l, c);
      OtherBin(rows, cols, p, l, c, b);
    }
  }

  // ---- transform_forward

  ghost function Bins(projs: seq<Projection>): set<array<Word>> {
    set i | 0 <= i < |projs| :: projs[i].bins
  }

  ghost function Zeros(rows: nat): seq<int> { seq(rows, l => 0) }

  // The columns added once row l has been added up to column c.
  ghost function AddedTo(rows: nat, cols: nat, l: nat, c: nat): (hi: seq<int>)
    ensures |hi| == rows
  {
    seq(rows, k => if k < l then cols else if k == l then c else 0)
  }

  // Add row l to one projection, eight pixels at a time.
  method AddRow(support: array<Word>, rows: nat, cols: nat, bins: array<Word>, p: int, l: nat, first: int, start: nat,
                ghost img: seq<seq<Word>>)
    requires support != bins && l < rows && cols % 8 == 0 && Known(support, img, rows, cols, Full(rows, cols))
    requires bins.Length >= BinCount(rows, cols, p) && first == BinOf(rows, p, l, 0) && start == Pix(cols, l, 0)
    requires Holds(bins, img, rows, Zeros(rows), AddedTo(rows, cols, l, 0), p)
    modifies bins
    ensures Holds(bins, img, rows, Zeros(rows), AddedTo(rows, cols, l + 1, 0), p)
  {
    hide LineSum, Crosses, BinCount, Holds, Offset;
    var k := cols / 8;
    var c := 0;
    while k > 0
      invariant 0 <= k && c == cols - 8 * k
      invariant Holds(bins, img, rows, Zeros(rows), AddedTo(rows, cols, l, c), p)
    {
      for x := 0 to 8
        invariant Holds(bins, img, rows, Zeros(rows), AddedTo(rows, cols, l, c + x), p)
      {
        PixFacts(rows, cols, l, c + x, l, c + x);
        assert support[start + c + x] == img[l][c + x] by { assert start + c + x == Pix(cols, l, c + x); }
        FlipBin(bins, first + c + x, support[start + c + x], img, rows, cols,
                Zeros(rows), AddedTo(rows, cols, l, c + x),
                Zeros(rows), AddedTo(rows, cols, l, c + x + 1), p, l, c + x);
      }
      c := c + 8;
      k := k - 1;
    }
    assert AddedTo(rows, cols, l, cols) == AddedTo(rows, cols, l + 1, 0);
  }

  // The projections all hold the pixels in [lo, hi).
  ghost predicate AllHold(projs: seq<Projection>, img: seq<seq<Word>>, rows: nat, lo: seq<int>, hi: seq<int>)
    reads set i | 0 <= i < |projs| :: projs[i].bins
  {
    forall i | 0 <= i < |projs| :: Holds(projs[i].bins, img, rows, lo, hi, projs[i].angle.p)
  }

  /** transform_forward: every bin becomes the sum of the pixels on its line. */
  method TransformForward(support: array<Word>, rows: nat, cols: nat, projections: seq<Projection>,
                          ghost img: seq<seq<Word>>)
    requires 0 < rows && cols % 8 == 0 && Known(support, img, rows, cols, Full(rows, cols))
    requires Usable(projections, rows, cols) && support !in Bins(projections)
    modifies Bins(projections)
    ensures AllHold(projections, img, rows, Zeros(rows), Full(rows, cols))
  {
    hide Known, Holds, BinCount, Offset;
    var offsets := seq(|projections|, i requires 0 <= i < |projections| => Offset(rows, projections[i].angle.p));
    for i := 0 to |projections|
      invariant Known(support, img, rows, cols, Full(rows, cols))
      invariant forall j | 0 <= j < i ::
        Holds(projections[j].bins, img, rows, Zeros(rows), AddedTo(rows, cols, 0, 0), projections[j].angle.p)
    {
      assert projections[i].bins in Bins(projections);
      KnownImage(support, img, rows, cols);
      ClearBins(projections[i].bins, rows, cols, projections[i].angle.p, img);
    }
    for i := 0 to |projections|
      invariant Known(support, img, rows, cols, Full(rows, cols))
      invariant forall j | i <= j < |projections| ::
        Holds(projections[j].bins, img, rows, Zeros(rows), AddedTo(rows, cols, 0, 0), projections[j].angle.p)
      invariant forall j | 0 <= j < i ::
        Holds(projections[j].bins, img, rows, Zeros(rows), Full(rows, cols), projections[j].angle.p)
    {
      assert projections[i].bins in Bins(projections);
      Project(support, rows, cols, projections[i].bins, projections[i].angle.p, offsets[i], img);
    }
  }

  lemma KnownImage(support: array<Word>, img: seq<seq<Word>>, rows: nat, cols: nat)
    requires Known(support, img, rows, cols, Full(rows, cols))
    ensures IsImage(img, rows, cols)
  {
  }

  // memset of all bins
  method ClearBins(bins: array<Word>, rows: nat, cols: nat, ghost p: int, ghost img: seq<seq<Word>>)
    requires IsImage(img, rows, cols)
    modifies bins
    ensures Holds(bins, img, rows, Zeros(rows), AddedTo(rows, cols, 0, 0), p)
  {
    for b := 0 to bins.Length
      invariant forall x | 0 <= x < b :: bins[x] == 0
    {
      bins[b] := 0;
    }
    forall b | 0 <= b < bins.Length
      ensures bins[b] == LineSum(img, rows, Zeros(rows), AddedTo(rows, cols, 0, 0), p, b, rows)
    {
      LineSumEmpty(img, rows, Zeros(rows), AddedTo(rows, cols, 0, 0), p, b, rows);
    }
  }

  method Project(support: array<Word>, rows: nat, cols: nat, bins: array<Word>, p: int, offset: int,
                 ghost img: seq<seq<Word>>)
    requires support != bins && cols % 8 == 0 && Known(support, img, rows, cols, Full(rows, cols))
    requires bins.Length >= BinCount(rows, cols, p) && offset == Offset(rows, p)
    requires Holds(bins, img, rows, Zeros(rows), AddedTo(rows, cols, 0, 0), p)
    modifies bins
    ensures Holds(bins, img, rows, Zeros(rows), Full(rows, cols), p)
  {
    hide LineSum, BinCount, Holds, Known, Offset;
    for l := 0 to rows
      invariant Holds(bins, img, rows, Zeros(rows), AddedTo(rows, cols, l, 0), p)
      invariant Known(support, img, rows, cols, Full(rows, cols))
    {
      AddRow(support, rows, cols, bins, p, l, l * p - offset, l * cols, img);
    }
    assert AddedTo(rows, cols, rows, 0) == Full(rows, cols);
  }
}

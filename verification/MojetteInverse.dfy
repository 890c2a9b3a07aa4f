/** transform_inverse: the image rebuilt from any rows of its projections. */
module MojetteInverse {
  import opened Arithmetic
  import opened Mojette

  // ---- Ordering the projections by slope, steepest first.

  ghost predicate DistinctSlopes(s: seq<Projection>) {
    forall i, j | 0 <= i < j < |s| :: s[i].angle.p != s[j].angle.p
  }

  ghost predicate SlopesOrdered(s: seq<Projection>, n: nat)
    requires n <= |s|
  {
    forall i, j | 0 <= i < j < n :: s[i].angle.p >= s[j].angle.p
  }

  function Swapped<T>(s: seq<T>, i: nat, j: nat): seq<T>
    requires i < |s| && j < |s|
  {
    s[i := s[j]][j := s[i]]
  }

  // The same projections, in another order.
  ghost predicate Rearranged(was: seq<Projection>, s: seq<Projection>, rows: nat, cols: nat) {
    && |s| == |was| && multiset(s) == multiset(was) && (forall x | x in s :: x in was)
    && (Usable(was, rows, cols) ==> Usable(s, rows, cols))
    && (DistinctSlopes(was) ==> DistinctSlopes(s))
  }

  // The first n are ordered but for the one at j, which is still on its way down.
  ghost predicate Sinking(s: seq<Projection>, n: nat, j: nat)
    requires j <= n < |s|
  {
    forall i, k | 0 <= i < k <= n && k != j :: s[i].angle.p >= s[k].angle.p
  }

  lemma SwapUsable(s: seq<Projection>, i: nat, j: nat, rows: nat, cols: nat)
    requires i < j < |s|
    ensures Usable(s, rows, cols) ==> Usable(Swapped(s, i, j), rows, cols)
  {
  }

  lemma SwapDistinct(s: seq<Projection>, i: nat, j: nat)
    requires i < j < |s|
    ensures DistinctSlopes(s) ==> DistinctSlopes(Swapped(s, i, j))
  {
  }

  lemma SwapRearranges(was: seq<Projection>, s: seq<Projection>, i: nat, j: nat, rows: nat, cols: nat)
    requires Rearranged(was, s, rows, cols) && i < j < |s|
    ensures Rearranged(was, Swapped(s, i, j), rows, cols)
  {
    hide Usable, DistinctSlopes;
    var t := Swapped(s, i, j);
    SwapUsable(s, i, j, rows, cols);
    SwapDistinct(s, i, j);
    assert multiset(t) == multiset(s);
    forall x | x in t
      ensures x in s
    {
      assert x in multiset(t);
    }
  }

  lemma SwapSinks(s: seq<Projection>, n: nat, j: nat)
    requires 0 < j <= n < |s| && Sinking(s, n, j) && s[j - 1].angle.p < s[j].angle.p
    ensures Sinking(Swapped(s, j - 1, j), n, j - 1)
  {
    var t := Swapped(s, j - 1, j);
    forall i, k | 0 <= i < k <= n && k != j - 1
      ensures t[i].angle.p >= t[k].angle.p
    {
      if k != j && i == j {
        assert s[j - 1].angle.p >= s[k].angle.p;
      }
    }
  }

  /** What qsort by compare_slope promises for q = 1. */
  method SortBySlope(projections: array<Projection>, ghost rows: nat, ghost cols: nat)
    modifies projections
    ensures SlopesOrdered(projections[..], projections.Length)
    ensures Rearranged(old(projections[..]), projections[..], rows, cols)
  {
    hide Rearranged, Sinking, SlopesOrdered;
    ghost var was := projections[..];
    SortStart(was, rows, cols);
    for n := 0 to projections.Length
      invariant Rearranged(was, projections[..], rows, cols) && SlopesOrdered(projections[..], n)
    {
      var j := n;
      SinkStart(projections[..], n);
      while j > 0 && projections[j - 1].angle.p < projections[j].angle.p
        invariant 0 <= j <= n
        invariant Rearranged(was, projections[..], rows, cols) && Sinking(projections[..], n, j)
      {
        ghost var s := projections[..];
        SwapRearranges(was, s, j - 1, j, rows, cols);
        SwapSinks(s, n, j);
        projections[j - 1], projections[j] := projections[j], projections[j - 1];
        assert projections[..] == Swapped(s, j - 1, j);
        j := j - 1;
      }
      SinkEnd(projections[..], n, j);
    }
  }

  lemma SortStart(s: seq<Projection>, rows: nat, cols: nat)
    ensures Rearranged(s, s, rows, cols) && SlopesOrdered(s, 0)
  {
  }

  lemma SinkStart(s: seq<Projection>, n: nat)
    requires n < |s| && SlopesOrdered(s, n)
    ensures Sinking(s, n, n)
  {
  }

  lemma SinkEnd(s: seq<Projection>, n: nat, j: nat)
    requires j <= n < |s| && Sinking(s, n, j) && (j > 0 ==> s[j - 1].angle.p >= s[j].angle.p)
    ensures SlopesOrdered(s, n + 1)
  {
    forall i, k | 0 <= i < k < n + 1
      ensures s[i].angle.p >= s[k].angle.p
    {
      if k == j && i < j - 1 {
        assert s[i].angle.p >= s[j - 1].angle.p;
      }
    }
  }

  ghost function Slopes(s: seq<Projection>): seq<int> {
    seq(|s|, i requires 0 <= i < |s| => s[i].angle.p)
  }

  /** Sorted by slope, no front of the first rows projections starts more than a row ahead. */
  ghost predicate FrontsFit(slopes: seq<int>, rows: nat, cols: nat) {
    0 < rows <= |slopes| &&
    forall q: seq<int> | Decreasing(q) && |q| == |slopes| && (forall x | x in q :: x in slopes) ::
      Max(KOffset(q[..rows], 0), KOffset(q[..rows], rows - 1)) <= cols
  }

  // ---- The reconstruction.

  /** The pixels behind the front are in the image array, and the bins hold the sums of the others. */
  ghost predicate Rebuilt(support: array<Word>, projs: seq<Projection>, img: seq<seq<Word>>, rows: nat, cols: nat,
                          lo: seq<int>)
    reads support, set i | 0 <= i < |projs| :: projs[i].bins
  {
    Known(support, img, rows, cols, lo) && AllHold(projs, img, rows, lo, Full(rows, cols))
  }

  // The projections in use and what the loops only read.
  ghost predicate Ready(support: array<Word>, projs: seq<Projection>, p: seq<int>, offsets: seq<int>,
                        kOffsets: seq<int>, img: seq<seq<Word>>, rows: nat, cols: nat)
  {
    && 0 < rows == |projs| && p == Slopes(projs) && Decreasing(p) && Usable(projs, rows, cols)
    && support !in Bins(projs)
    && |offsets| >= rows && (forall i | 0 <= i < rows :: offsets[i] == Offset(rows, p[i]))
    && |kOffsets| >= rows && (forall l | 0 <= l < rows :: kOffsets[l] == KOffset(p, l))
    && IsImage(img, rows, cols)
    && Max(KOffset(p, 0), KOffset(p, rows - 1)) <= cols
  }

  lemma FrontNext(p: seq<int>, cols: nat, k: int, l: nat)
    requires l < |p| && 0 <= k + KOffset(p, l) < cols
    ensures Front(p, cols, k, l)[l] == k + KOffset(p, l)
    ensures Front(p, cols, k, l + 1) == Front(p, cols, k, l)[l := k + KOffset(p, l) + 1]
  {
  }

  // The bin on the line of projection l through its next pixel holds just that pixel.
  lemma BinIsPixel(support: array<Word>, projs: seq<Projection>, p: seq<int>, offsets: seq<int>, kOffsets: seq<int>,
                   img: seq<seq<Word>>, rows: nat, cols: nat, k: int, l: nat)
    requires Ready(support, projs, p, offsets, kOffsets, img, rows, cols) && l < rows && 0 <= k + KOffset(p, l) < cols
    requires Rebuilt(support, projs, img, rows, cols, Front(p, cols, k, l))
    ensures var b := BinOf(rows, p[l], l, k + KOffset(p, l));
      0 <= b < projs[l].bins.Length && projs[l].bins[b] == img[l][k + KOffset(p, l)]
  {
    var c := k + KOffset(p, l);
    var b := BinOf(rows, p[l], l, c);
    var lo := Front(p, cols, k, l);
    BinFacts(rows, cols, p[l], l, c);
    forall a | 0 <= a < rows && a != l
      ensures PixelOn(img, rows, lo, Full(rows, cols), p[l], b, a) == 0
    {
      OneUnknown(p, rows, cols, img, k, l, a);
    }
    LineSumSingle(img, rows, lo, Full(rows, cols), p[l], b, rows, l);
    FrontNext(p, cols, k, l);
    assert projs[l].angle.p == p[l];
    assert Holds(projs[l].bins, img, rows, lo, Full(rows, cols), p[l]);
  }

  /** Row l takes step k: read its pixel from one bin, write it, and take it out of all projections. */
  method RebuildPixel(support: array<Word>, projs: seq<Projection>, offsets: seq<int>, kOffsets: seq<int>, rows: nat,
                      cols: nat, k: int, l: nat, ghost p: seq<int>, ghost img: seq<seq<Word>>)
    requires Ready(support, projs, p, offsets, kOffsets, img, rows, cols) && l < rows && 0 <= k + KOffset(p, l) < cols
    requires Rebuilt(support, projs, img, rows, cols, Front(p, cols, k, l))
    modifies support, Bins(projs)
    ensures Rebuilt(support, projs, img, rows, cols, Front(p, cols, k, l + 1))
  {
    hide LineSum, Crosses, Offset, KOffset, BinCount, Holds, Front, Decreasing;
    ghost var lo, lo', hi := Front(p, cols, k, l), Front(p, cols, k, l + 1), Full(rows, cols);
    var c := k + kOffsets[l];
    FrontNext(p, cols, k, l);
    BinIsPixel(support, projs, p, offsets, kOffsets, img, rows, cols, k, l);
    assert projs[l].bins in Bins(projs);
    var bin := projs[l].bins[c * projs[l].angle.q + l * projs[l].angle.p - offsets[l]];
    WritePixel(support, rows, cols, l, c, bin, lo, img);
    for i := 0 to rows
      invariant Known(support, img, rows, cols, lo')
      invariant forall j | 0 <= j < i :: Holds(projs[j].bins, img, rows, lo', hi, projs[j].angle.p)
      invariant forall j | i <= j < rows :: Holds(projs[j].bins, img, rows, lo, hi, projs[j].angle.p)
    {
      assert projs[i].bins in Bins(projs);
      FlipBin(projs[i].bins, c * projs[i].angle.q + l * projs[i].angle.p - offsets[i], bin, img, rows, cols,
              lo, hi, lo', hi, projs[i].angle.p, l, c);
    }
  }

  method WritePixel(support: array<Word>, rows: nat, cols: nat, l: nat, c: nat, bin: Word, ghost lo: seq<int>,
                    ghost img: seq<seq<Word>>)
    requires Known(support, img, rows, cols, lo) && l < rows && c < cols && lo[l] == c && bin == img[l][c]
    modifies support
    ensures Known(support, img, rows, cols, lo[l := c + 1])
  {
    hide Pix;
    assert l * cols + c == Pix(cols, l, c) by { PixIs(cols, l, c); }
    PixFacts(rows, cols, l, c, l, c);
    support[l * cols + c] := bin;
    forall a, x | 0 <= a < rows && 0 <= x < cols && x < lo[l := c + 1][a]
      ensures Pix(cols, a, x) < support.Length && support[Pix(cols, a, x)] == img[a][x]
    {
      PixFacts(rows, cols, a, x, l, c);
    }
  }

  lemma PixIs(cols: nat, l: nat, c: nat)
    ensures Pix(cols, l, c) == l * cols + c
  {
  }

  // Row l at step k, when it is inside the image; the edges test nothing they need not.
  method StepRow(support: array<Word>, projs: seq<Projection>, offsets: seq<int>, kOffsets: seq<int>, rows: nat,
                 cols: nat, k: int, l: nat, testLeft: bool, testRight: bool, ghost p: seq<int>,
                 ghost img: seq<seq<Word>>)
    requires Ready(support, projs, p, offsets, kOffsets, img, rows, cols) && l < rows
    requires !testLeft ==> 0 <= k + KOffset(p, l)
    requires !testRight ==> k + KOffset(p, l) < cols
    requires Rebuilt(support, projs, img, rows, cols, Front(p, cols, k, l))
    modifies support, Bins(projs)
    ensures Rebuilt(support, projs, img, rows, cols, Front(p, cols, k, l + 1))
  {
    hide KOffset, Front, Rebuilt, Usable;
    if (testLeft ==> k + kOffsets[l] >= 0) && (testRight ==> k + kOffsets[l] < cols) {
      RebuildPixel(support, projs, offsets, kOffsets, rows, cols, k, l, p, img);
    } else {
      FrontSkip(p, cols, k, l);
    }
  }

  // All rows take step k: the rows before rdv downwards, then from the last one up to rdv.
  method StepAll(support: array<Word>, projs: seq<Projection>, offsets: seq<int>, kOffsets: seq<int>, rows: nat,
                 cols: nat, k: int, testLeft: bool, testRight: bool, ghost p: seq<int>, ghost img: seq<seq<Word>>)
    requires Ready(support, projs, p, offsets, kOffsets, img, rows, cols)
    requires !testLeft ==> 0 <= k
    requires !testRight ==> k + Max(KOffset(p, 0), KOffset(p, rows - 1)) < cols
    requires Rebuilt(support, projs, img, rows, cols, Front(p, cols, k, 0))
    modifies support, Bins(projs)
    ensures Rebuilt(support, projs, img, rows, cols, Front(p, cols, k + 1, 0))
  {
    hide KOffset, Front, Rebuilt, Decreasing, Usable;
    var rdv := rows - 1;
    forall l | 0 <= l < rows
      ensures 0 <= KOffset(p, l) <= Max(KOffset(p, 0), KOffset(p, rows - 1))
    {
      KOffsetNonnegative(p, l);
      KOffsetConvex(p, l);
    }
    for l := 0 to rdv
      invariant Rebuilt(support, projs, img, rows, cols, Front(p, cols, k, l))
    {
      StepRow(support, projs, offsets, kOffsets, rows, cols, k, l, testLeft, testRight, p, img);
    }
    var l := rows - 1;
    while l >= rdv
      invariant rdv - 1 <= l <= rdv
      invariant Rebuilt(support, projs, img, rows, cols, Front(p, cols, k, if l == rdv then rdv else rows))
    {
      StepRow(support, projs, offsets, kOffsets, rows, cols, k, l, testLeft, testRight, p, img);
      l := l - 1;
    }
    FrontTurn(p, cols, k);
  }

  // The three phases: not all rows have entered the image, all are inside, some have left it.
  method Reconstruct(support: array<Word>, projs: seq<Projection>, offsets: seq<int>, kOffsets: seq<int>, rows: nat,
                     cols: nat, ghost p: seq<int>, ghost img: seq<seq<Word>>)
    requires Ready(support, projs, p, offsets, kOffsets, img, rows, cols)
    requires Rebuilt(support, projs, img, rows, cols, Zeros(rows))
    modifies support, Bins(projs)
    ensures Rebuilt(support, projs, img, rows, cols, Full(rows, cols))
  {
    hide KOffset, Front, Rebuilt, Decreasing, Usable;
    var m := Max(kOffsets[0], kOffsets[rows - 1]);
    FrontStart(p, cols);
    KOffsetNonnegative(p, 0);
    var k := -m;
    while k < 0
      invariant -m <= k <= 0
      invariant Rebuilt(support, projs, img, rows, cols, Front(p, cols, k, 0))
    {
      StepAll(support, projs, offsets, kOffsets, rows, cols, k, true, false, p, img);
      k := k + 1;
    }
    k := 0;
    while k < cols - m
      invariant 0 <= k <= cols - m
      invariant Rebuilt(support, projs, img, rows, cols, Front(p, cols, k, 0))
    {
      StepAll(support, projs, offsets, kOffsets, rows, cols, k, false, false, p, img);
      k := k + 1;
    }
    k := cols - m;
    while k < cols
      invariant cols - m <= k <= cols
      invariant Rebuilt(support, projs, img, rows, cols, Front(p, cols, k, 0))
    {
      StepAll(support, projs, offsets, kOffsets, rows, cols, k, false, true, p, img);
      k := k + 1;
    }
    FrontEnd(p, cols);
  }

  // The initial column offset of every row.
  method ComputeKOffsets(p: seq<int>, rows: nat) returns (kOffsets: seq<int>)
    requires 0 < rows <= |p|
    ensures |kOffsets| == rows && forall l | 0 <= l < rows :: kOffsets[l] == KOffset(p[..rows], l)
  {
    ghost var q := p[..rows];
    var sMinus, sPlus := 0, 0;
    for i := 1 to if rows > 1 then rows - 1 else 1
      invariant sMinus == Part(q, -1, 1, i) && sPlus == Part(q, 1, 1, i)
    {
      sMinus := sMinus + Max(0, -p[i]);
      sPlus := sPlus + Max(0, p[i]);
    }
    var rdv := rows - 1;
    var a := new int[rows];
    a[rdv] := Max(Max(0, -p[rdv]) + sMinus, Max(0, p[rdv]) + sPlus);
    assert SumOf(q, rows, rows) == 0;
    for i := rdv downto 0
      invariant forall l | i <= l < rows :: a[l] == KOffset(q, l)
    {
      SumSplit(q, i + 1, i + 2, rows);
      assert SumOf(q, i + 1, i + 2) == SumOf(q, i + 1, i + 1) + q[i + 1];
      a[i] := a[i + 1] + p[i + 1];
    }
    kOffsets := a[..];
  }

  lemma SortedFits(was: seq<Projection>, sorted: seq<Projection>, rows: nat, cols: nat)
    requires Rearranged(was, sorted, rows, cols) && SlopesOrdered(sorted, |sorted|)
    requires Usable(was, rows, cols) && DistinctSlopes(was) && FrontsFit(Slopes(was), rows, cols)
    ensures var p := Slopes(sorted)[..rows]; Decreasing(p) && Max(KOffset(p, 0), KOffset(p, rows - 1)) <= cols
    ensures Usable(sorted[..rows], rows, cols) && Slopes(sorted)[..rows] == Slopes(sorted[..rows])
  {
    var q := Slopes(sorted);
    assert Decreasing(q) by {
      forall i, j | 0 <= i < j < |q|
        ensures q[i] > q[j]
      {
        assert sorted[i].angle.p != sorted[j].angle.p;
      }
    }
    forall x | x in q
      ensures x in Slopes(was)
    {
      var i :| 0 <= i < |q| && q[i] == x;
      assert sorted[i] in was;
      var j :| 0 <= j < |was| && was[j] == sorted[i];
      assert Slopes(was)[j] == x;
    }
    assert q[..rows] == Slopes(sorted[..rows]);
  }

  /** transform_inverse: from bins that hold the forward transform of an image, the image is rebuilt and
      every bin of the projections used ends at zero. */
  method TransformInverse(support: array<Word>, rows: nat, cols: nat, projections: array<Projection>,
                          ghost img: seq<seq<Word>>) returns (ghost projs: seq<Projection>)
    requires IsImage(img, rows, cols) && support.Length == rows * cols && rows <= projections.Length
    requires Usable(projections[..], rows, cols) && DistinctSlopes(projections[..]) && support !in Bins(projections[..])
    requires support as object != projections && forall x | x in projections[..] :: x.bins as object != projections
    requires FrontsFit(Slopes(projections[..]), rows, cols)
    requires AllHold(projections[..], img, rows, Zeros(rows), Full(rows, cols))
    modifies support, projections, Bins(projections[..])
    ensures Known(support, img, rows, cols, Full(rows, cols))
    ensures |projs| == rows && (forall x | x in projs :: x in old(projections[..]))
    ensures forall i, b | 0 <= i < rows && 0 <= b < projs[i].bins.Length :: projs[i].bins[b] == 0
  {
    hide KOffset, Holds, FrontsFit, LineSum;
    ghost var was := projections[..];
    SortBySlope(projections, rows, cols);
    var sorted := projections[..];
    SortedFits(was, sorted, rows, cols);
    var slopes := seq(|sorted|, i requires 0 <= i < |sorted| => sorted[i].angle.p);
    var offsets := seq(|sorted|, i requires 0 <= i < |sorted| => Offset(rows, sorted[i].angle.p));
    FrontsUsable(was, rows, cols);
    var kOffsets := ComputeKOffsets(slopes, rows);
    projs := sorted[..rows];
    assert slopes == Slopes(sorted);
    StartRebuild(support, was, projs, img, rows, cols);
    Reconstruct(support, sorted[..rows], offsets, kOffsets, rows, cols, slopes[..rows], img);
    NothingLeft(projs, img, rows, cols);
  }

  lemma FrontsUsable(was: seq<Projection>, rows: nat, cols: nat)
    requires FrontsFit(Slopes(was), rows, cols)
    ensures 0 < rows <= |was|
  {
  }

  lemma StartRebuild(support: array<Word>, was: seq<Projection>, projs: seq<Projection>, img: seq<seq<Word>>, rows: nat,
                     cols: nat)
    requires IsImage(img, rows, cols) && support.Length == rows * cols && forall x | x in projs :: x in was
    requires AllHold(was, img, rows, Zeros(rows), Full(rows, cols)) && support !in Bins(was)
    ensures Rebuilt(support, projs, img, rows, cols, Zeros(rows)) && support !in Bins(projs) && Bins(projs) <= Bins(was)
  {
    forall i | 0 <= i < |projs|
      ensures Holds(projs[i].bins, img, rows, Zeros(rows), Full(rows, cols), projs[i].angle.p)
      ensures projs[i].bins in Bins(was)
    {
      assert projs[i] in was;
      var j :| 0 <= j < |was| && was[j] == projs[i];
      assert Holds(was[j].bins, img, rows, Zeros(rows), Full(rows, cols), was[j].angle.p);
    }
  }

  lemma NothingLeft(projs: seq<Projection>, img: seq<seq<Word>>, rows: nat, cols: nat)
    requires IsImage(img, rows, cols) && AllHold(projs, img, rows, Full(rows, cols), Full(rows, cols))
    ensures forall i, b | 0 <= i < |projs| && 0 <= b < projs[i].bins.Length :: projs[i].bins[b] == 0
  {
    forall i, b | 0 <= i < |projs| && 0 <= b < projs[i].bins.Length
      ensures projs[i].bins[b] == 0
    {
      assert Holds(projs[i].bins, img, rows, Full(rows, cols), Full(rows, cols), projs[i].angle.p);
      LineSumEmpty(img, rows, Full(rows, cols), Full(rows, cols), projs[i].angle.p, b, rows);
    }
  }

  ghost function ImageOf(support: seq<Word>, rows: nat, cols: nat): (img: seq<seq<Word>>)
    ensures IsImage(img, rows, cols)
  {
    seq(rows, l requires 0 <= l < rows =>
      seq(cols, c requires 0 <= c < cols =>
        if Pix(cols, l, c) < |support| then support[Pix(cols, l, c)] else 0))
  }

  lemma PixCovers(rows: nat, cols: nat, x: nat) returns (l: nat, c: nat)
    requires x < rows * cols
    ensures l < rows && c < cols && Pix(cols, l, c) == x
  {
    FactorsPositive(rows, cols);
    DeviceBound(cols, rows, x);
    l, c := x / cols, x % cols;
  }

  /** Both transforms in a row: whatever image is projected, it comes back in another array. */
  method RoundTrip(support: array<Word>, rebuilt: array<Word>, rows: nat, cols: nat, projections: array<Projection>)
    requires support.Length == rebuilt.Length == rows * cols && cols % 8 == 0 && rows <= projections.Length
    requires Usable(projections[..], rows, cols) && DistinctSlopes(projections[..])
    requires FrontsFit(Slopes(projections[..]), rows, cols)
    requires support != rebuilt && support !in Bins(projections[..]) && rebuilt !in Bins(projections[..])
    requires rebuilt as object != projections && forall x | x in projections[..] :: x.bins as object != projections
    modifies rebuilt, projections, Bins(projections[..])
    ensures rebuilt[..] == old(support[..])
  {
    ghost var img := ImageOf(support[..], rows, cols);
    FrontsUsable(projections[..], rows, cols);
    forall l, c | 0 <= l < rows && 0 <= c < cols
      ensures Pix(cols, l, c) < support.Length && support[Pix(cols, l, c)] == img[l][c]
    {
      PixFacts(rows, cols, l, c, l, c);
    }
    ghost var was, image := projections[..], support[..];
    hide Pix, ImageOf, LineSum;
    TransformForward(support, rows, cols, projections[..], img);
    assert projections[..] == was;
    var projs := TransformInverse(rebuilt, rows, cols, projections, img);
    forall x | 0 <= x < rows * cols
      ensures rebuilt[x] == image[x]
    {
      var l, c := PixCovers(rows, cols, x);
      assert rebuilt[Pix(cols, l, c)] == img[l][c] by { assert c < Full(rows, cols)[l]; }
      assert img[l][c] == image[x] by { ImageAt(image, rows, cols, l, c); }
    }
  }

  lemma ImageAt(support: seq<Word>, rows: nat, cols: nat, l: nat, c: nat)
    requires l < rows && c < cols && Pix(cols, l, c) < |support|
    ensures ImageOf(support, rows, cols)[l][c] == support[Pix(cols, l, c)]
  {
  }
}

/** What the kernels of the RAID-6 blocks have in common: rows with one or two ones, sums of two blocks, and
    walks around the residues modulo a prime. */
module RaidSixKernels {
  import opened Fields
  import opened LinearAlgebra
  import opened Residues
  import opened RaidSix

  lemma OneOne(row: seq<bool>, a: nat, x: seq<bool>)
    requires |row| == |x| && a < |x| && forall c | 0 <= c < |row| :: row[c] == (c == a)
    ensures Dot(F2, row, x) == x[a]
  {
    F2Valid();
    assert row == UnitVec(F2, |x|, a);
    DotUnit(F2, x, a);
  }

  lemma TwoOnes(row: seq<bool>, a: nat, b: nat, x: seq<bool>)
    requires |row| == |x| && a < |x| && b < |x| && a != b && forall c | 0 <= c < |row| :: row[c] == (c == a || c == b)
    ensures Dot(F2, row, x) == (x[a] != x[b])
  {
    F2Valid();
    var e, f := UnitVec(F2, |x|, a), UnitVec(F2, |x|, b);
    assert row == AddScaled(F2, e, true, f);
    DotAddScaled(F2, e, true, f, x, |x|);
    DotUnit(F2, x, a);
    DotUnit(F2, x, b);
  }

  lemma SumDot(w: nat, X: seq<seq<bool>>, Y: seq<seq<bool>>, y: nat, v: seq<bool>)
    requires IsMatrix(F2, X, w, w) && IsMatrix(F2, Y, w, w) && y < w && |v| == w
    ensures |Sum(X, Y)[y]| == w
    ensures Dot(F2, Sum(X, Y)[y], v) == (Dot(F2, X[y], v) != Dot(F2, Y[y], v))
  {
    F2Valid();
    DotAddScaled(F2, X[y], true, Y[y], v, w);
  }

  lemma SumIsMatrix(w: nat, X: seq<seq<bool>>, Y: seq<seq<bool>>)
    requires IsMatrix(F2, X, w, w) && IsMatrix(F2, Y, w, w)
    ensures IsMatrix(F2, Sum(X, Y), w, w)
  {
  }

  ghost predicate KillsRows(w: nat, A: seq<seq<bool>>, v: seq<bool>)
    requires IsMatrix(F2, A, w, w) && |v| == w
  {
    forall y | 0 <= y < w :: !Dot(F2, A[y], v)
  }

  lemma OnlyZero(w: nat, A: seq<seq<bool>>)
    requires IsMatrix(F2, A, w, w)
    requires forall v | |v| == w && KillsRows(w, A, v) :: forall n | 0 <= n < w :: !v[n]
    ensures Nonsingular(F2, A, w)
  {
    forall x | IsVec(F2, x, w) && MatVec(F2, A, x) == ZeroVec(F2, w)
      ensures x == ZeroVec(F2, w)
    {
      forall y | 0 <= y < w
        ensures !Dot(F2, A[y], x)
      {
        assert MatVec(F2, A, x)[y] == ZeroVec(F2, w)[y];
      }
      assert KillsRows(w, A, x);
    }
  }

  // ---- Walks: U[m + 1] differs from U[m] only at the marked steps.

  ghost predicate Turns(U: seq<bool>, m: nat, flip: bool) {
    m + 1 < |U| && (U[m + 1] == (U[m] != flip))
  }

  lemma Constant(U: seq<bool>, first: nat, last: nat)
    requires first <= last < |U| && forall m | first <= m < last :: Turns(U, m, false)
    ensures forall m | first <= m <= last :: U[m] == U[first]
  {
    if first < last {
      Constant(U, first, last - 1);
      assert Turns(U, last - 1, false);
    }
  }

  // A step of size s from base reaches every residue.
  ghost function Walk(p: nat, v: int -> bool, base: int, s: int): (U: seq<bool>)
    ensures |U| == p + 1
  {
    seq(p + 1, m => v(base + s * m))
  }

  ghost predicate Periodic(p: nat, v: int -> bool)
    requires p > 0
  {
    forall a, b | Cong(p, a, b) :: v(a) == v(b)
  }

  lemma WalkReaches(p: nat, v: int -> bool, base: int, s: int, n: int) returns (m: nat)
    requires p > 0 && Unit(p, s) && Periodic(p, v)
    ensures m < p && Cong(p, base + s * m, n) && v(n) == Walk(p, v, base, s)[m]
  {
    m := Reaches(p, s, n - base);
    CongShift(p, s * m, n - base, base);
  }

  lemma WalkReturns(p: nat, v: int -> bool, base: int, s: int)
    requires p > 0 && Periodic(p, v)
    ensures Walk(p, v, base, s)[p] == Walk(p, v, base, s)[0]
  {
    Multiple(p, base, s);
    assert s * p == p * s && s * 0 == 0;
    assert Cong(p, base + s * p, base + s * 0);
  }
}

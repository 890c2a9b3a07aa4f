/** A row of ones and a row p above it: exactly when any k of the k + 2 devices determine the data. For the powers
    of 2 (reed_sol.c) that is for k up to the number of nonzero elements. */
module TwoParities {
  import opened Fields
  import opened LinearAlgebra
  import opened RowReduction
  import opened Erasures
  import opened MatrixDecoding
  import opened Independence
  import opened LogTables
  import opened RaidSixEncode

  ghost predicate DistinctNonzero<E(!new)>(F: Field<E>, p: seq<E>) {
    NoRepeats(p) && forall i | 0 <= i < |p| :: p[i] != F.zero
  }

  ghost function Parities<E(!new)>(F: Field<E>, p: seq<E>): (C: seq<seq<E>>)
    ensures |C| == 2
  {
    [seq(|p|, i => F.one), p]
  }

  // ---- Choosing k of k + 2 devices leaves out two.

  ghost function Below(n: nat): (s: set<nat>)
    ensures |s| == n && forall i: nat :: i in s <==> i < n
  {
    if n == 0 then {} else Below(n - 1) + {n - 1}
  }

  lemma ThreeLeftOut(ids: seq<nat>, k: nat, a: nat, b: nat, c: nat)
    requires Chosen(ids, k, k + 2) && a < k + 2 && b < k + 2 && c < k + 2 && a != b && b != c && a != c
    ensures a in ids || b in ids || c in ids
  {
    var out := LeftOut(ids, k);
    if a !in ids && b !in ids && c !in ids {
      SubsetCount({a, b, c}, out);
    }
  }

  lemma LeftOut(ids: seq<nat>, k: nat) returns (out: set<nat>)
    requires Chosen(ids, k, k + 2)
    ensures |out| == 2 && forall d | 0 <= d < k + 2 && d !in ids :: d in out
  {
    hide Below;
    ElementCount(ids);
    var chosen, all := Elements(ids), Below(k + 2);
    out := all - chosen;
    assert chosen <= all;
    SplitCount(chosen, all);
  }

  lemma SplitCount(a: set<nat>, b: set<nat>)
    requires a <= b
    ensures |b - a| == |b| - |a|
  {
    assert b == a + (b - a);
  }

  lemma KilledData<E(!new)>(F: Field<E>, k: nat, C: seq<seq<E>>, ids: seq<nat>, x: seq<E>, d: nat)
    requires F.Valid() && IsMatrix(F, C, |C|, k) && IsMatrix(F, Systematic(F, k, C), k + |C|, k)
    requires Chosen(ids, k, k + |C|) && IsVec(F, x, k) && Kills(F, Systematic(F, k, C), k, ids, x) && d in ids
    ensures d < k ==> x[d] == F.zero
    ensures k <= d ==> d < k + |C| && |C[d - k]| == k && Dot(F, C[d - k], x) == F.zero
  {
    var t :| 0 <= t < k && ids[t] == d;
    assert Systematic(F, k, C)[d] == DeviceRow(F, k, C, d);
    if d < k {
      DotUnit(F, x, d);
    } else {
      assert IsVec(F, C[d - k], k);
    }
  }

  lemma OneTerm<E(!new)>(F: Field<E>, row: seq<E>, x: seq<E>, a: nat)
    requires F.Valid() && IsVec(F, row, |row|) && IsVec(F, x, |row|) && a < |row| && row[a] != F.zero && x[a] != F.zero
    requires forall i | 0 <= i < |row| && i != a :: x[i] == F.zero
    ensures Dot(F, row, x) != F.zero
  {
    DotSingle(F, row, x, |row|, a);
    F.MulNonzero(row[a], x[a]);
  }

  lemma TwoTerms<E(!new)>(F: Field<E>, row: seq<E>, x: seq<E>, a: nat, b: nat)
    requires F.Valid() && IsVec(F, row, |row|) && IsVec(F, x, |row|) && a < |row| && b < |row| && a != b
    requires forall i | 0 <= i < |row| && i != a && i != b :: x[i] == F.zero
    ensures Dot(F, row, x) == F.add(F.mul(row[a], x[a]), F.mul(row[b], x[b]))
  {
    var y := x[b := F.zero];
    assert y[b := x[b]] == x;
    DotSingle(F, row, y, |row|, a);
    DotUpdate(F, row, y, |row|, b, x[b]);
  }

  // Two values that the ones add up to zero are not added up to zero by different entries.
  lemma TwoSums<E(!new)>(F: Field<E>, p: E, q: E, x: E, y: E)
    requires F.Valid() && F.elem(p) && F.elem(q) && F.elem(x) && F.elem(y) && x != F.zero
    requires F.add(F.mul(F.one, x), F.mul(F.one, y)) == F.zero && p != q
    ensures F.add(F.mul(p, x), F.mul(q, y)) != F.zero
  {
    F.MulOne(x);
    F.MulOne(y);
    F.AddCancel(x, y);
    F.Closed(p, q);
    assert F.MulLaws(x, p, q) && F.MulLaws(p, x, x) && F.MulLaws(q, x, x) && F.MulLaws(F.add(p, q), x, x);
    F.MulNonzero(F.add(p, q), x);
    F.AddCancel(p, q);
  }

  lemma ParitiesMatrix<E(!new)>(F: Field<E>, p: seq<E>)
    requires F.Valid() && IsVec(F, p, |p|)
    ensures IsMatrix(F, Parities(F, p), 2, |p|) && IsMatrix(F, Systematic(F, |p|, Parities(F, p)), |p| + 2, |p|)
  {
    SystematicIsMatrix(F, |p|, Parities(F, p));
  }

  // x is zero but for a and perhaps b, which are left out.
  ghost predicate Pair<E(!new)>(F: Field<E>, x: seq<E>, a: nat, b: nat) {
    a < |x| && b < |x| && x[a] != F.zero && forall i | 0 <= i < |x| && i != a && i != b :: x[i] == F.zero
  }

  lemma KilledPair<E(!new)>(F: Field<E>, p: seq<E>, ids: seq<nat>, x: seq<E>, a: nat) returns (b: nat)
    requires F.Valid() && IsVec(F, p, |p|) && IsMatrix(F, Systematic(F, |p|, Parities(F, p)), |p| + 2, |p|)
    requires Chosen(ids, |p|, |p| + 2) && IsVec(F, x, |p|) && Kills(F, Systematic(F, |p|, Parities(F, p)), |p|, ids, x)
    requires a < |p| && x[a] != F.zero
    ensures Pair(F, x, a, b)
    ensures b != a ==> |p| in ids && |p| + 1 in ids && x[b] != F.zero
    ensures |p| in ids || |p| + 1 in ids
  {
    hide Systematic, Kills, Parities;
    var k := |p|;
    ParitiesMatrix(F, p);
    forall d | 0 <= d < k && x[d] != F.zero
      ensures d !in ids
    {
      if d in ids {
        KilledData(F, k, Parities(F, p), ids, x, d);
      }
    }
    ThreeLeftOut(ids, k, a, k, k + 1);
    if c :| 0 <= c < k && c != a && x[c] != F.zero {
      b := c;
      ThreeLeftOut(ids, k, a, b, k);
      ThreeLeftOut(ids, k, a, b, k + 1);
      forall i | 0 <= i < k && i != a && i != b
        ensures x[i] == F.zero
      {
        if x[i] != F.zero {
          ThreeLeftOut(ids, k, a, b, i);
        }
      }
    } else {
      b := a;
    }
  }

  lemma RowSeen<E(!new)>(F: Field<E>, p: seq<E>, ids: seq<nat>, x: seq<E>, r: nat)
    requires F.Valid() && IsVec(F, p, |p|) && IsMatrix(F, Systematic(F, |p|, Parities(F, p)), |p| + 2, |p|)
    requires Chosen(ids, |p|, |p| + 2) && IsVec(F, x, |p|) && r < 2 && |p| + r in ids
    requires |Parities(F, p)[r]| == |p| && Dot(F, Parities(F, p)[r], x) != F.zero
    ensures !Kills(F, Systematic(F, |p|, Parities(F, p)), |p|, ids, x)
  {
    var t :| 0 <= t < |p| && ids[t] == |p| + r;
    assert Systematic(F, |p|, Parities(F, p))[ids[t]] == DeviceRow(F, |p|, Parities(F, p), |p| + r);
  }

  // With distinct nonzero entries below the ones, a pair is not killed.
  lemma PairNotKilled<E(!new)>(F: Field<E>, p: seq<E>, ids: seq<nat>, x: seq<E>, a: nat, b: nat)
    requires F.Valid() && IsVec(F, p, |p|) && DistinctNonzero(F, p)
    requires IsMatrix(F, Systematic(F, |p|, Parities(F, p)), |p| + 2, |p|)
    requires Chosen(ids, |p|, |p| + 2) && IsVec(F, x, |p|) && Pair(F, x, a, b)
    requires |p| in ids || |p| + 1 in ids
    requires b != a ==> |p| in ids && |p| + 1 in ids && x[b] != F.zero
    ensures !Kills(F, Systematic(F, |p|, Parities(F, p)), |p|, ids, x)
  {
    hide Systematic, Kills, Dot;
    var k, ones := |p|, Parities(F, p)[0];
    ParitiesMatrix(F, p);
    assert IsVec(F, ones, k) && Parities(F, p)[1] == p;
    if b == a {
      OneTerm(F, ones, x, a);
      OneTerm(F, p, x, a);
      RowSeen(F, p, ids, x, if k in ids then 0 else 1);
    } else if Dot(F, ones, x) != F.zero {
      RowSeen(F, p, ids, x, 0);
    } else {
      TwoTerms(F, ones, x, a, b);
      TwoTerms(F, p, x, a, b);
      TwoSums(F, p[a], p[b], x[a], x[b]);
      RowSeen(F, p, ids, x, 1);
    }
  }

  // All devices but data devices i and j.
  ghost function Without(k: nat, i: nat, j: nat): (ids: seq<nat>)
    requires i < j < k
    ensures Chosen(ids, k, k + 2) && i !in ids && j !in ids
  {
    seq(k, t requires 0 <= t < k => if t < i then t else if t < j - 1 then t + 1 else t + 2)
  }

  // Two equal entries: the sum of the two unit vectors is killed.
  lemma EqualEntries<E(!new)>(F: Field<E>, p: seq<E>, i: nat, j: nat)
    requires F.Valid() && IsVec(F, p, |p|) && i < j < |p| && p[i] == p[j]
    ensures !AnyRows(F, Systematic(F, |p|, Parities(F, p)), |p|)
  {
    hide Systematic;
    var k, C, ids := |p|, Parities(F, p), Without(|p|, i, j);
    var M := Systematic(F, k, C);
    ParitiesMatrix(F, p);
    var x := seq(k, d => if d == i || d == j then F.one else F.zero);
    assert IsVec(F, x, k);
    forall t | 0 <= t < k
      ensures Dot(F, M[ids[t]], x) == F.zero
    {
      PairKilled(F, p, i, j, x, ids[t]);
    }
    assert Kills(F, M, k, ids, x);
    assert x[i] != ZeroVec(F, k)[i];
    assert !Independent(F, M, k, ids);
  }

  lemma PairKilled<E(!new)>(F: Field<E>, p: seq<E>, i: nat, j: nat, x: seq<E>, d: nat)
    requires F.Valid() && IsVec(F, p, |p|) && i < j < |p| && p[i] == p[j] && d < |p| + 2 && d != i && d != j
    requires IsVec(F, x, |p|) && forall c | 0 <= c < |p| :: x[c] == if c == i || c == j then F.one else F.zero
    requires IsMatrix(F, Systematic(F, |p|, Parities(F, p)), |p| + 2, |p|)
    ensures Dot(F, Systematic(F, |p|, Parities(F, p))[d], x) == F.zero
  {
    var k, C := |p|, Parities(F, p);
    assert Systematic(F, k, C)[d] == DeviceRow(F, k, C, d);
    if d < k {
      DotUnit(F, x, d);
    } else {
      var row := C[d - k];
      assert IsVec(F, row, k) && row[i] == row[j];
      TwoTerms(F, row, x, i, j);
      F.Closed(row[i], F.one);
      F.AddZero(F.mul(row[i], F.one));
    }
  }

  /** Any |p| of the devices determine the data if and only if the entries of p are distinct and none is zero. */
  lemma TwoParitiesExact<E(!new)>(F: Field<E>, p: seq<E>)
    requires F.Valid() && IsVec(F, p, |p|)
    ensures AnyRows(F, Systematic(F, |p|, Parities(F, p)), |p|) <==> DistinctNonzero(F, p)
  {
    hide Systematic;
    var k, M := |p|, Systematic(F, |p|, Parities(F, p));
    ParitiesMatrix(F, p);
    if DistinctNonzero(F, p) {
      forall ids | Chosen(ids, k, |M|)
        ensures Independent(F, M, k, ids)
      {
        forall x | IsVec(F, x, k) && Kills(F, M, k, ids, x)
          ensures x == ZeroVec(F, k)
        {
          if x != ZeroVec(F, k) {
            var a :| 0 <= a < k && x[a] != ZeroVec(F, k)[a];
            var b := KilledPair(F, p, ids, x, a);
            PairNotKilled(F, p, ids, x, a, b);
          }
        }
      }
    } else if AnyRows(F, M, k) {
      forall i | 0 <= i < k
        ensures p[i] != F.zero
      {
        CodingNonzero(F, k, Parities(F, p), 1, i);
      }
      var i, j :| 0 <= i < j < k && p[i] == p[j];
      EqualEntries(F, p, i, j);
    }
  }

  /** The RAID-6 matrix of reed_sol.c: any k devices determine the data exactly for k up to 2^w - 1. */
  lemma RaidSixExact(g: seq<bool>, k: nat)
    requires Primitive(g)
    ensures AnyRows(GF(g), Systematic(GF(g), k, [OnesRow(g, k), PowersRow(g, k)]), k) <==> k <= Order(g)
  {
    hide Power, Pow2, FindInverse, AnyRows, Systematic;
    GFValid(g);
    var F, p := GF(g), PowersRow(g, k);
    assert IsVec(F, p, k);
    assert Parities(F, p) == [OnesRow(g, k), p];
    TwoParitiesExact(F, p);
    forall i | 0 <= i < k
      ensures p[i] != F.zero
    {
      PowerNonzero(g, i);
    }
    if k > Order(g) {
      PowersReturn(g);
      FirstPower(g);
      assert p[0] == p[Order(g)];
    }
  }
}

/** The extended Vandermonde matrix and the distribution matrix made from it by row and column operations
    (reed_sol.c). points lists the elements that the integers 0, 1, 2, ... stand for. */
module Vandermonde {
  import opened Fields
  import opened LinearAlgebra
  import opened Elimination
  import opened Erasures
  import opened Galois
  import opened LogTables
  import P = Polynomials
  import opened Independence

  // The elements of the field in order, zero first.
  ghost predicate Points<E(!new)>(F: Field<E>, points: seq<E>) {
    IsVec(F, points, |points|) && NoRepeats(points) && |points| > 0 && points[0] == F.zero
  }

  // ---- The extended matrix.

  ghost function PowerRow<E(!new)>(F: Field<E>, z: E, cols: nat): (row: seq<E>)
    ensures |row| == cols
  {
    seq(cols, j requires 0 <= j < cols => P.Power(F, z, j))
  }

  /** Row 0 is 1, 0, ..., 0, the last row 0, ..., 0, 1, and row i between them the powers of i. */
  ghost function VandermondeRow<E(!new)>(F: Field<E>, points: seq<E>, rows: nat, cols: nat, r: nat): (row: seq<E>)
    requires r < rows <= |points| && cols > 0
    ensures |row| == cols
  {
    if r == 0 then UnitVec(F, cols, 0)
      else if r == rows - 1 then UnitVec(F, cols, cols - 1) else PowerRow(F, points[r], cols)
  }

  ghost function VandermondeRows<E(!new)>(F: Field<E>, points: seq<E>, rows: nat, cols: nat): (M: seq<seq<E>>)
    requires rows <= |points| && cols > 0
    ensures |M| == rows
  {
    seq(rows, r requires 0 <= r < rows => VandermondeRow(F, points, rows, cols, r))
  }

  lemma VandermondeIsMatrix<E(!new)>(F: Field<E>, points: seq<E>, rows: nat, cols: nat)
    requires F.Valid() && Points(F, points) && rows <= |points| && cols > 0
    ensures IsMatrix(F, VandermondeRows(F, points, rows, cols), rows, cols)
  {
    forall r | 0 <= r < rows
      ensures IsVec(F, VandermondeRow(F, points, rows, cols, r), cols)
    {
      forall j | 0 <= j < cols
        ensures F.elem(PowerRow(F, points[r], cols)[j])
      {
        P.PowerElem(F, points[r], j);
      }
    }
  }

  // A row other than the last evaluates the polynomial with coefficients x.
  lemma RowEvaluates<E(!new)>(F: Field<E>, points: seq<E>, rows: nat, cols: nat, r: nat, x: seq<E>)
    requires F.Valid() && Points(F, points) && rows <= |points| && cols > 0 && IsVec(F, x, cols)
    requires r < rows && (r == 0 || r < rows - 1)
    ensures Dot(F, VandermondeRow(F, points, rows, cols, r), x) == P.Eval(F, x, points[r])
  {
    if r == 0 {
      DotUnit(F, x, 0);
      P.EvalElem(F, x[1..], F.zero);
      F.MulZero(P.Eval(F, x[1..], F.zero));
      F.AddZero(x[0]);
    } else {
      P.PowersEvaluate(F, PowerRow(F, points[r], cols), x, points[r], cols);
      assert x[..cols] == x;
    }
  }

  // Distinct rows other than the last are distinct roots.
  lemma KilledPolynomial<E(!new)>(F: Field<E>, points: seq<E>, rows: nat, cols: nat, ids: seq<nat>, x: seq<E>,
                                  c: seq<E>)
    requires F.Valid() && Points(F, points) && rows <= |points| && cols > 0 && IsVec(F, x, cols)
    requires NoRepeats(ids) && forall i | 0 <= i < |ids| :: ids[i] < rows && (ids[i] == 0 || ids[i] < rows - 1)
    requires forall i | 0 <= i < |ids| :: Dot(F, VandermondeRow(F, points, rows, cols, ids[i]), x) == F.zero
    requires IsVec(F, c, |c|) && |c| <= |ids| && forall z | F.elem(z) :: P.Eval(F, c, z) == P.Eval(F, x, z)
    ensures forall j | 0 <= j < |c| :: c[j] == F.zero
  {
    hide Dot, VandermondeRow;
    var roots := seq(|ids|, i requires 0 <= i < |ids| => points[ids[i]]);
    forall i | 0 <= i < |roots|
      ensures P.Eval(F, c, roots[i]) == F.zero
    {
      RowEvaluates(F, points, rows, cols, ids[i], x);
    }
    P.TooManyRoots(F, c, roots);
  }

  lemma DropLast<E(!new)>(F: Field<E>, x: seq<E>)
    requires F.Valid() && |x| > 0 && IsVec(F, x, |x|) && x[|x| - 1] == F.zero
    ensures IsVec(F, x[..|x| - 1], |x| - 1) && forall z | F.elem(z) :: P.Eval(F, x[..|x| - 1], z) == P.Eval(F, x, z)
  {
    var c := x[..|x| - 1];
    forall z | F.elem(z)
      ensures P.Eval(F, c, z) == P.Eval(F, x, z)
    {
      assert x == c + [F.zero];
      P.EvalSnoc(F, c, F.zero, z);
      P.PowerElem(F, z, |c|);
      F.MulZero(P.Power(F, z, |c|));
      P.EvalElem(F, c, z);
      F.AddZero(P.Eval(F, c, z));
    }
  }

  // Leaving out the last row's place.
  lemma WithoutPlace(ids: seq<nat>, u: nat)
    requires u < |ids| && NoRepeats(ids)
    ensures var rest := ids[..u] + ids[u + 1..];
      NoRepeats(rest) && |rest| == |ids| - 1 && forall i | 0 <= i < |rest| :: rest[i] in ids && rest[i] != ids[u]
  {
  }

  /** Any cols rows of the extended matrix are independent. */
  lemma VandermondeAnyRows<E(!new)>(F: Field<E>, points: seq<E>, rows: nat, cols: nat)
    requires F.Valid() && Points(F, points) && rows <= |points| && cols > 0
    ensures AnyRows(F, VandermondeRows(F, points, rows, cols), cols)
  {
    hide VandermondeRow, Dot;
    var M := VandermondeRows(F, points, rows, cols);
    VandermondeIsMatrix(F, points, rows, cols);
    forall ids | Chosen(ids, cols, rows)
      ensures Independent(F, M, cols, ids)
    {
      forall x | IsVec(F, x, cols) && Kills(F, M, cols, ids, x)
        ensures x == ZeroVec(F, cols)
      {
        forall i | 0 <= i < cols
          ensures Dot(F, VandermondeRow(F, points, rows, cols, ids[i]), x) == F.zero
        {
          assert M[ids[i]] == VandermondeRow(F, points, rows, cols, ids[i]);
        }
        KernelIsZero(F, points, rows, cols, ids, x);
      }
    }
  }

  lemma KernelIsZero<E(!new)>(F: Field<E>, points: seq<E>, rows: nat, cols: nat, ids: seq<nat>, x: seq<E>)
    requires F.Valid() && Points(F, points) && rows <= |points| && cols > 0 && IsVec(F, x, cols)
    requires Chosen(ids, cols, rows)
    requires forall i | 0 <= i < cols :: Dot(F, VandermondeRow(F, points, rows, cols, ids[i]), x) == F.zero
    ensures x == ZeroVec(F, cols)
  {
    if u :| 0 <= u < cols && ids[u] == rows - 1 && rows > 1 {
      DotUnit(F, x, cols - 1);
      assert x[cols - 1] == F.zero;
      DropLast(F, x);
      WithoutPlace(ids, u);
      KilledPolynomial(F, points, rows, cols, ids[..u] + ids[u + 1..], x, x[..cols - 1]);
      assert forall j | 0 <= j < cols - 1 :: x[j] == x[..cols - 1][j];
    } else {
      KilledPolynomial(F, points, rows, cols, ids, x, x);
    }
  }

  /** reed_sol_extended_vandermonde_matrix. */
  method ExtendedVandermonde<E(==,!new)>(F: Field<E>, points: seq<E>, rows: nat, cols: nat, w: nat)
    returns (vdm: array2?<E>)
    requires F.Valid() && Points(F, points) && |points| == Pow2(w) && rows > 0 && cols > 0
    requires w >= 30 ==> rows <= Pow2(w) && cols <= Pow2(w)
    ensures vdm == null <==> Pow2(w) < rows || Pow2(w) < cols
    ensures vdm != null ==> fresh(vdm) && vdm.Length0 == rows && vdm.Length1 == cols
    ensures vdm != null ==> Rows(vdm) == VandermondeRows(F, points, rows, cols)
    ensures vdm != null ==> forall c | 0 <= c < cols :: vdm[0, c] == if c == 0 then F.one else F.zero
    ensures vdm != null && rows > 1 ==>
      forall r, c | r == rows - 1 && 0 <= c < cols :: vdm[r, c] == if c == cols - 1 then F.one else F.zero
    ensures vdm != null ==> forall r | 0 < r < rows - 1 :: vdm[r, 0] == F.one
    ensures vdm != null ==>
      forall r, c | 0 < r < rows - 1 && 0 < c < cols :: vdm[r, c] == F.mul(vdm[r, c - 1], points[r])
  {
    hide Pow2, Points, VandermondeRows, P.Power;
    if w < 30 && Pow2(w) < rows {
      return null;
    }
    if w < 30 && Pow2(w) < cols {
      return null;
    }
    vdm := new E[rows, cols]((i, j) => F.zero);
    vdm[0, 0] := F.one;
    for j := 1 to cols
      invariant forall c | 0 <= c < j :: vdm[0, c] == if c == 0 then F.one else F.zero
    {
      vdm[0, j] := F.zero;
    }
    if rows > 1 {
      SetLastRow(F, vdm);
      if rows > 2 {
        SetPowers(F, points, vdm);
      }
    }
    RowsMatch(F, points, vdm, rows, cols);
    PowersFollow(F, points, vdm, rows, cols);
  }

  lemma PowersFollow<E(!new)>(F: Field<E>, points: seq<E>, vdm: array2<E>, rows: nat, cols: nat)
    requires 0 < rows == vdm.Length0 <= |points| && 0 < cols == vdm.Length1
    requires forall r, c | 0 < r < rows - 1 && 0 <= c < cols :: vdm[r, c] == P.Power(F, points[r], c)
    ensures forall r | 0 < r < rows - 1 :: vdm[r, 0] == F.one
    ensures forall r, c | 0 < r < rows - 1 && 0 < c < cols :: vdm[r, c] == F.mul(vdm[r, c - 1], points[r])
  {
    forall r, c | 0 < r < rows - 1 && 0 < c < cols
      ensures vdm[r, c] == F.mul(vdm[r, c - 1], points[r])
    {
      assert P.Power(F, points[r], c) == F.mul(P.Power(F, points[r], c - 1), points[r]);
    }
  }

  method SetLastRow<E(!new)>(F: Field<E>, vdm: array2<E>)
    requires vdm.Length0 > 1 && vdm.Length1 > 0
    modifies vdm
    ensures forall c | 0 <= c < vdm.Length1 :: vdm[0, c] == old(vdm[0, c])
    ensures forall r, c | r == vdm.Length0 - 1 && 0 <= c < vdm.Length1 ::
      vdm[r, c] == if c == vdm.Length1 - 1 then F.one else F.zero
  {
    var i, cols := vdm.Length0 - 1, vdm.Length1;
    for j := 0 to cols - 1
      invariant forall c | 0 <= c < cols :: vdm[0, c] == old(vdm[0, c])
      invariant forall c | 0 <= c < j :: vdm[i, c] == F.zero
    {
      vdm[i, j] := F.zero;
    }
    vdm[i, cols - 1] := F.one;
  }

  method SetPowerRow<E(!new)>(F: Field<E>, z: E, vdm: array2<E>, i: nat)
    requires i < vdm.Length0
    modifies vdm
    ensures forall r, c | 0 <= r < vdm.Length0 && 0 <= c < vdm.Length1 ::
      vdm[r, c] == if r == i then P.Power(F, z, c) else old(vdm[r, c])
  {
    var k := F.one;
    for j := 0 to vdm.Length1
      invariant k == P.Power(F, z, j)
      invariant forall r, c | 0 <= r < vdm.Length0 && 0 <= c < vdm.Length1 ::
        vdm[r, c] == if r == i && c < j then P.Power(F, z, c) else old(vdm[r, c])
    {
      vdm[i, j] := k;
      k := F.mul(k, z);
    }
  }

  method SetPowers<E(!new)>(F: Field<E>, points: seq<E>, vdm: array2<E>)
    requires 2 < vdm.Length0 <= |points| && vdm.Length1 > 0
    modifies vdm
    ensures forall r, c | (r == 0 || r == vdm.Length0 - 1) && 0 <= c < vdm.Length1 :: vdm[r, c] == old(vdm[r, c])
    ensures forall r, c | 0 < r < vdm.Length0 - 1 && 0 <= c < vdm.Length1 :: vdm[r, c] == P.Power(F, points[r], c)
  {
    var rows, cols := vdm.Length0, vdm.Length1;
    for i := 1 to rows - 1
      invariant forall r, c | (r == 0 || r == rows - 1) && 0 <= c < cols :: vdm[r, c] == old(vdm[r, c])
      invariant forall r, c | 0 < r < i && 0 <= c < cols :: vdm[r, c] == P.Power(F, points[r], c)
    {
      SetPowerRow(F, points[i], vdm, i);
    }
  }

  lemma RowsMatch<E(!new)>(F: Field<E>, points: seq<E>, vdm: array2<E>, rows: nat, cols: nat)
    requires 0 < rows == vdm.Length0 <= |points| && 0 < cols == vdm.Length1
    requires forall c | 0 <= c < cols :: vdm[0, c] == if c == 0 then F.one else F.zero
    requires rows > 1 ==>
      forall r, c | r == rows - 1 && 0 <= c < cols :: vdm[r, c] == if c == cols - 1 then F.one else F.zero
    requires forall r, c | 0 < r < rows - 1 && 0 <= c < cols :: vdm[r, c] == P.Power(F, points[r], c)
    ensures Rows(vdm) == VandermondeRows(F, points, rows, cols)
  {
    var M := VandermondeRows(F, points, rows, cols);
    forall r | 0 <= r < rows
      ensures Rows(vdm)[r] == M[r]
    {
      assert M[r] == VandermondeRow(F, points, rows, cols, r);
    }
  }

  // ---- The integers as elements of GF(2^w).

  ghost function Integers(w: nat): (points: seq<seq<bool>>)
    ensures |points| == Pow2(w)
  {
    seq(Pow2(w), i requires 0 <= i < Pow2(w) => Bits(i, w))
  }

  /** Different integers below 2^w are different elements, and 0 is zero. */
  lemma IntegersArePoints(g: seq<bool>)
    ensures Points(GF(g), Integers(|g|))
  {
    hide Bits, Num, Pow2;
    var w, points := |g|, Integers(|g|);
    NumZero(w);
    BitsNum(Zero(w));
    forall i, j | 0 <= i < j < |points|
      ensures points[i] != points[j]
    {
      NumBits(i, w);
      NumBits(j, w);
    }
  }
}

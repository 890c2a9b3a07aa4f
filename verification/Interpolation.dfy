/** What column operations make of the extended Vandermonde matrix (reed_sol.c). Every column stays a combination of
    the columns of the matrix, that is a polynomial evaluated at the points. When the top is the identity, column j
    is the polynomial that is 1 at point j and 0 at the points of the other rows on top, so all entries are known. */
module Interpolation {
  import opened Fields
  import opened LinearAlgebra
  import P = Polynomials
  import opened Independence
  import opened Vandermonde

  // ---- Columns as combinations of columns.

  // Column j of M is the combination of the columns of V with coefficients C[j].
  ghost predicate Combines<E(!new)>(F: Field<E>, V: seq<seq<E>>, M: seq<seq<E>>, C: seq<seq<E>>, n: nat) {
    && IsMatrix(F, V, |V|, n) && IsMatrix(F, M, |V|, n) && IsMatrix(F, C, n, n)
    && forall r, j | 0 <= r < |V| && 0 <= j < n :: M[r][j] == Dot(F, C[j], V[r])
  }

  // From column i of V on, only its own column has gone into a column of M.
  ghost predicate Fresh<E(!new)>(F: Field<E>, C: seq<seq<E>>, n: nat, i: nat)
    requires IsMatrix(F, C, n, n)
  {
    forall j, t | 0 <= j < n && i <= t < n :: C[j][t] == if t == j then F.one else F.zero
  }

  lemma CombinesStart<E(!new)>(F: Field<E>, V: seq<seq<E>>, n: nat)
    requires F.Valid() && IsMatrix(F, V, |V|, n)
    ensures Combines(F, V, V, Identity(F, n), n) && Fresh(F, Identity(F, n), n, 0)
  {
    hide Dot;
    forall r, j | 0 <= r < |V| && 0 <= j < n
      ensures V[r][j] == Dot(F, Identity(F, n)[j], V[r])
    {
      DotUnit(F, V[r], j);
    }
  }

  lemma CombinesScale<E(!new)>(F: Field<E>, V: seq<seq<E>>, M: seq<seq<E>>, C: seq<seq<E>>, n: nat, i: nat, t: E)
    requires F.Valid() && Combines(F, V, M, C, n) && i < n && F.elem(t)
    ensures Combines(F, V, ScaleColumn(F, M, n, i, t), C[i := Scaled(F, t, C[i])], n)
    ensures Fresh(F, C, n, i) ==> Fresh(F, C[i := Scaled(F, t, C[i])], n, i + 1)
  {
    hide DotTo;
    F.MulZero(t);
    assert IsVec(F, C[i], n);
    forall c | 0 <= c < n
      ensures F.elem(Scaled(F, t, C[i])[c])
    {
      F.Closed(t, C[i][c]);
    }
    forall r | 0 <= r < |V|
      ensures F.elem(F.mul(t, M[r][i])) && F.mul(t, M[r][i]) == Dot(F, Scaled(F, t, C[i]), V[r])
    {
      assert IsVec(F, V[r], n) && IsVec(F, M[r], n);
      F.Closed(t, M[r][i]);
      DotScaled(F, t, C[i], V[r], n);
    }
  }

  lemma CombinesAdd<E(!new)>(F: Field<E>, V: seq<seq<E>>, M: seq<seq<E>>, C: seq<seq<E>>, n: nat, j: nat, t: E, i: nat)
    requires F.Valid() && Combines(F, V, M, C, n) && i < n && j < n && i != j && F.elem(t)
    ensures Combines(F, V, AddColumn(F, M, n, j, t, i), C[j := AddScaled(F, C[j], t, C[i])], n)
    ensures Fresh(F, C, n, i + 1) ==> Fresh(F, C[j := AddScaled(F, C[j], t, C[i])], n, i + 1)
  {
    hide DotTo;
    F.MulZero(t);
    assert IsVec(F, C[i], n) && IsVec(F, C[j], n);
    forall c | 0 <= c < n
      ensures F.elem(AddScaled(F, C[j], t, C[i])[c])
    {
      F.Closed(t, C[i][c]);
      F.Closed(C[j][c], F.mul(t, C[i][c]));
    }
    forall r | 0 <= r < |V|
      ensures var e := F.add(M[r][j], F.mul(t, M[r][i]));
        F.elem(e) && e == Dot(F, AddScaled(F, C[j], t, C[i]), V[r])
    {
      assert IsVec(F, V[r], n) && IsVec(F, M[r], n);
      F.Closed(t, M[r][i]);
      F.Closed(M[r][j], F.mul(t, M[r][i]));
      DotAddScaled(F, C[j], t, C[i], V[r], n);
    }
    if Fresh(F, C, n, i + 1) {
      F.AddZero(F.zero);
      F.AddZero(F.one);
    }
  }

  // ---- The pivot.

  lemma {:induction false} TrimZeros<E(!new)>(F: Field<E>, x: seq<E>, m: nat, z: E)
    requires F.Valid() && IsVec(F, x, |x|) && m <= |x| && F.elem(z)
    requires forall t | m <= t < |x| :: x[t] == F.zero
    ensures P.Eval(F, x[..m], z) == P.Eval(F, x, z)
  {
    if m == 0 {
      P.EvalZero(F, x, z);
    } else {
      TrimZeros(F, x[1..], m - 1, z);
      assert x[..m][1..] == x[1..][..m - 1];
    }
  }

  /** With unit rows above row i, entry (i, i) is not zero: column i is a polynomial of degree i with the points of
      the rows above as roots, and cannot have another. So the search for a pivot ends where it starts. */
  lemma PivotHere<E(!new)>(F: Field<E>, points: seq<E>, rows: nat, n: nat, M: seq<seq<E>>, C: seq<seq<E>>, i: nat)
    requires F.Valid() && Points(F, points) && 0 < n < rows <= |points| && i < n
    requires Combines(F, VandermondeRows(F, points, rows, n), M, C, n) && Fresh(F, C, n, i)
    requires forall r | 0 <= r < i :: M[r] == UnitVec(F, n, r)
    ensures M[i][i] != F.zero
  {
    hide VandermondeRow, Dot;
    var V := VandermondeRows(F, points, rows, n);
    var x, ids := C[i], seq(i + 1, t => t);
    assert IsVec(F, x, n) && x[..i + 1][i] == F.one;
    if M[i][i] == F.zero {
      forall t | 0 <= t <= i
        ensures Dot(F, VandermondeRow(F, points, rows, n, t), x) == F.zero
      {
        assert V[t] == VandermondeRow(F, points, rows, n, t) && IsVec(F, V[t], n);
        DotSwap(F, V[t], x);
        assert M[t][i] == F.zero;
      }
      forall z | F.elem(z)
        ensures P.Eval(F, x[..i + 1], z) == P.Eval(F, x, z)
      {
        TrimZeros(F, x, i + 1, z);
      }
      KilledPolynomial(F, points, rows, n, ids, x, x[..i + 1]);
    }
  }

  lemma DotSwap<E(!new)>(F: Field<E>, a: seq<E>, b: seq<E>)
    requires F.Valid() && |a| == |b| && IsVec(F, a, |a|) && IsVec(F, b, |b|)
    ensures Dot(F, a, b) == Dot(F, b, a)
  {
    DotComm(F, a, b, |a|);
  }

  // ---- The polynomials that the columns end up as.

  // The points of the first n rows but row j.
  ghost function Others<E>(points: seq<E>, n: nat, j: nat): (roots: seq<E>)
    requires j < n <= |points|
    ensures |roots| == n - 1
  {
    points[..j] + points[j + 1..n]
  }

  // Row r of the matrix on the polynomial with those roots.
  ghost function NodeAt<E(!new)>(F: Field<E>, points: seq<E>, rows: nat, n: nat, j: nat, r: nat): E
    requires j < n <= |points| && r < |points|
  {
    if r == rows - 1 then F.one else P.Along(F, Others(points, n, j), points[r])
  }

  lemma OthersElems<E(!new)>(F: Field<E>, points: seq<E>, n: nat, j: nat)
    requires Points(F, points) && j < n <= |points|
    ensures IsVec(F, Others(points, n, j), n - 1)
  {
  }

  lemma RowOnNodes<E(!new)>(F: Field<E>, points: seq<E>, rows: nat, n: nat, j: nat, r: nat)
    requires F.Valid() && Points(F, points) && j < n < rows <= |points| && r < rows
    ensures IsVec(F, P.Nodes(F, Others(points, n, j)), n)
    ensures Dot(F, VandermondeRow(F, points, rows, n, r), P.Nodes(F, Others(points, n, j))) ==
      NodeAt(F, points, rows, n, j, r)
  {
    hide Dot;
    var roots := Others(points, n, j);
    OthersElems(F, points, n, j);
    P.NodesEval(F, roots, points[r]);
    if r == rows - 1 {
      P.NodesMonic(F, roots);
      DotUnit(F, P.Nodes(F, roots), n - 1);
    } else {
      hide VandermondeRow;
      RowEvaluates(F, points, rows, n, r, P.Nodes(F, roots));
    }
  }

  // On top it is zero but in row j.
  lemma NodesOnTop<E(!new)>(F: Field<E>, points: seq<E>, rows: nat, n: nat, j: nat, t: nat)
    requires F.Valid() && Points(F, points) && j < n < rows <= |points| && t < n
    ensures F.elem(NodeAt(F, points, rows, n, j, t)) && (NodeAt(F, points, rows, n, j, t) == F.zero <==> t != j)
  {
    var roots := Others(points, n, j);
    OthersElems(F, points, n, j);
    P.AlongZero(F, roots, points[t]);
    if t < j {
      assert roots[t] == points[t];
    } else if t > j {
      assert roots[t - 1] == points[t];
    } else {
      forall i | 0 <= i < |roots|
        ensures roots[i] != points[j]
      {
        assert roots[i] == points[if i < j then i else i + 1];
      }
    }
  }

  /** With the identity on top, entry (r, j) times the value at point j is the value at row r. */
  lemma EntryInterpolates<E(!new)>(F: Field<E>, points: seq<E>, rows: nat, n: nat, M: seq<seq<E>>, C: seq<seq<E>>,
                                   j: nat, r: nat)
    requires F.Valid() && Points(F, points) && j < n < rows <= |points| && r < rows
    requires Combines(F, VandermondeRows(F, points, rows, n), M, C, n)
    requires forall t | 0 <= t < n :: M[t] == UnitVec(F, n, t)
    ensures F.elem(NodeAt(F, points, rows, n, j, j)) && IsVec(F, M[r], n)
    ensures F.mul(NodeAt(F, points, rows, n, j, j), M[r][j]) == NodeAt(F, points, rows, n, j, r)
  {
    hide Dot, NodeAt, VandermondeRow, Others;
    var V, N, v := VandermondeRows(F, points, rows, n), P.Nodes(F, Others(points, n, j)), NodeAt(F, points, rows, n, j,
        j);
    NodesOnTop(F, points, rows, n, j, j);
    RowOnNodes(F, points, rows, n, j, j);
    var x := AddScaled(F, N, v, C[j]);
    CombinationElems(F, N, v, C[j], n);
    forall t | 0 <= t < rows
      ensures IsVec(F, M[t], n)
      ensures Dot(F, VandermondeRow(F, points, rows, n, t), x) ==
        F.add(NodeAt(F, points, rows, n, j, t), F.mul(v, M[t][j]))
    {
      RowOnCombination(F, points, rows, n, M, C, j, t);
    }
    forall t | 0 <= t < n
      ensures Dot(F, VandermondeRow(F, points, rows, n, t), x) == F.zero
    {
      NodesOnTop(F, points, rows, n, j, t);
      F.MulZero(v);
      F.MulOne(v);
      F.AddZero(v);
      F.AddZero(F.zero);
    }
    var ids := seq(n, t => t);
    KernelIsZero(F, points, rows, n, ids, x);
    ZeroDot(F, points, rows, n, r, x);
    NodeElem(F, points, rows, n, j, r);
    F.Closed(v, M[r][j]);
    F.AddCancel(NodeAt(F, points, rows, n, j, r), F.mul(v, M[r][j]));
  }

  lemma CombinationElems<E(!new)>(F: Field<E>, a: seq<E>, t: E, b: seq<E>, n: nat)
    requires F.Valid() && IsVec(F, a, n) && IsVec(F, b, n) && F.elem(t)
    ensures IsVec(F, AddScaled(F, a, t, b), n)
  {
    forall c | 0 <= c < n
      ensures F.elem(AddScaled(F, a, t, b)[c])
    {
      F.Closed(t, b[c]);
      F.Closed(a[c], F.mul(t, b[c]));
    }
  }

  lemma RowOnCombination<E(!new)>(F: Field<E>, points: seq<E>, rows: nat, n: nat, M: seq<seq<E>>, C: seq<seq<E>>,
                                  j: nat, t: nat)
    requires F.Valid() && Points(F, points) && j < n < rows <= |points| && t < rows
    requires Combines(F, VandermondeRows(F, points, rows, n), M, C, n) && F.elem(NodeAt(F, points, rows, n, j, j))
    ensures var N, v := P.Nodes(F, Others(points, n, j)), NodeAt(F, points, rows, n, j, j);
      && |N| == |C[j]| == |M[t]| == n && IsVec(F, M[t], n)
      && Dot(F, VandermondeRow(F, points, rows, n, t), AddScaled(F, N, v, C[j])) ==
         F.add(NodeAt(F, points, rows, n, j, t), F.mul(v, M[t][j]))
  {
    hide DotTo, NodeAt, VandermondeRow, Others;
    var N, v := P.Nodes(F, Others(points, n, j)), NodeAt(F, points, rows, n, j, j);
    var V, row := VandermondeRows(F, points, rows, n), VandermondeRow(F, points, rows, n, t);
    assert V[t] == row && IsVec(F, V[t], n) && IsVec(F, C[j], n) && IsVec(F, M[t], n);
    RowOnNodes(F, points, rows, n, j, t);
    CombinationElems(F, N, v, C[j], n);
    DotSwap(F, row, AddScaled(F, N, v, C[j]));
    DotSwap(F, row, N);
    DotAddScaled(F, N, v, C[j], row, n);
  }

  lemma ZeroDot<E(!new)>(F: Field<E>, points: seq<E>, rows: nat, n: nat, r: nat, x: seq<E>)
    requires F.Valid() && Points(F, points) && 0 < n < rows <= |points| && r < rows && x == ZeroVec(F, n)
    ensures Dot(F, VandermondeRow(F, points, rows, n, r), x) == F.zero
  {
    VandermondeIsMatrix(F, points, rows, n);
    assert VandermondeRows(F, points, rows, n)[r] == VandermondeRow(F, points, rows, n, r);
    DotZero(F, VandermondeRow(F, points, rows, n, r), x, n);
  }

  lemma NodeElem<E(!new)>(F: Field<E>, points: seq<E>, rows: nat, n: nat, j: nat, r: nat)
    requires F.Valid() && Points(F, points) && j < n < rows <= |points| && r < rows
    ensures F.elem(NodeAt(F, points, rows, n, j, r))
  {
    OthersElems(F, points, n, j);
    P.AlongZero(F, Others(points, n, j), points[r]);
  }

  // ---- After scaling columns and rows.

  /** What row r has at point j: the difference of the points, or 1 in the last row. */
  ghost function Gap<E(!new)>(F: Field<E>, points: seq<E>, rows: nat, r: nat, j: nat): E
    requires r < |points| && j < |points|
  {
    if r == rows - 1 then F.one else F.add(points[r], points[j])
  }

  // The product of all n differences, in whatever row.
  ghost function Whole<E(!new)>(F: Field<E>, points: seq<E>, rows: nat, n: nat, r: nat): E
    requires n <= |points| && r < |points|
  {
    if r == rows - 1 then F.one else P.Along(F, points[..n], points[r])
  }

  lemma GapElem<E(!new)>(F: Field<E>, points: seq<E>, rows: nat, r: nat, j: nat)
    requires F.Valid() && Points(F, points) && j < r < |points|
    ensures F.elem(Gap(F, points, rows, r, j)) && Gap(F, points, rows, r, j) != F.zero
  {
    F.Closed(points[r], points[j]);
    F.AddCancel(points[r], points[j]);
  }

  lemma WholeNonzero<E(!new)>(F: Field<E>, points: seq<E>, rows: nat, n: nat, r: nat)
    requires F.Valid() && Points(F, points) && n <= r < |points|
    ensures F.elem(Whole(F, points, rows, n, r)) && Whole(F, points, rows, n, r) != F.zero
  {
    P.AlongZero(F, points[..n], points[r]);
  }

  lemma NodeTimesGap<E(!new)>(F: Field<E>, points: seq<E>, rows: nat, n: nat, j: nat, r: nat)
    requires F.Valid() && Points(F, points) && j < n <= r < rows <= |points|
    ensures F.mul(NodeAt(F, points, rows, n, j, r), Gap(F, points, rows, r, j)) == Whole(F, points, rows, n, r)
  {
    F.MulOne(F.one);
    assert points[..j] + [points[j]] + points[j + 1..n] == points[..n];
    P.AlongMiddle(F, points[..j], points[j], points[j + 1..n], points[r]);
  }

  // The entries of one column, up to a factor of the column and one of the row.
  lemma ColumnGap<E(!new)>(F: Field<E>, points: seq<E>, rows: nat, n: nat, M: seq<seq<E>>, C: seq<seq<E>>, j: nat,
                           r: nat)
    requires F.Valid() && Points(F, points) && j < n <= r < rows <= |points|
    requires Combines(F, VandermondeRows(F, points, rows, n), M, C, n) && |M| == rows
    requires forall t | 0 <= t < n :: M[t] == UnitVec(F, n, t)
    ensures F.elem(NodeAt(F, points, rows, n, j, j)) && IsVec(F, M[r], n)
    ensures F.mul(NodeAt(F, points, rows, n, j, j), F.mul(M[r][j], Gap(F, points, rows, r, j))) ==
      Whole(F, points, rows, n, r)
  {
    hide Combines, NodeAt, Gap, Whole, Points;
    EntryInterpolates(F, points, rows, n, M, C, j, r);
    NodeTimesGap(F, points, rows, n, j, r);
    GapElem(F, points, rows, r, j);
    F.MulFront(NodeAt(F, points, rows, n, j, j), M[r][j], Gap(F, points, rows, r, j));
  }

  lemma ScaledColumn<E(!new)>(F: Field<E>, d: E, s: E, t: E, v: E, x: E, y: E, W: E, W': E)
    requires F.Valid() && F.elem(d) && F.elem(s) && F.elem(v) && F.elem(x) && F.elem(y)
    requires F.mul(d, s) == t && F.mul(v, F.mul(t, x)) == W' && F.mul(v, F.mul(s, y)) == W
    ensures F.mul(F.mul(d, W), x) == F.mul(W', y)
  {
    F.Closed(d, s);
    F.Closed(s, y);
    F.Closed(t, x);
    F.Closed(t, y);
    F.MulFront(d, v, F.mul(s, y));
    F.MulFront(d, s, y);
    F.MulFront(v, F.mul(t, y), x);
    F.MulFront(t, y, x);
    F.MulFront(v, F.mul(t, x), y);
  }

  lemma ScaledRow<E(!new)>(F: Field<E>, e: E, d: E, d0: E, W: E, W': E, x: E, y: E, x0: E, y0: E)
    requires F.Valid() && F.elem(e) && F.elem(d0) && F.elem(W) && F.elem(W') && W' != F.zero
    requires F.elem(x) && F.elem(y) && F.elem(x0) && F.elem(y0) && F.mul(e, d0) == d
    requires F.mul(F.mul(d, W), x) == F.mul(W', y) && F.mul(F.mul(d0, W), x0) == F.mul(W', y0)
    ensures F.mul(e, F.mul(x, y0)) == F.mul(y, x0)
  {
    F.Closed(x, y0);
    F.Closed(y, x0);
    F.Closed(W', y0);
    F.Closed(d0, W);
    F.Closed(x, x0);
    F.Closed(e, F.mul(x, y0));
    var u := F.mul(d0, W);
    F.MulFront(W', e, F.mul(x, y0));
    F.MulFront(W', x, y0);
    F.MulFront(x, u, x0);
    F.MulFront(e, u, F.mul(x, x0));
    F.MulFront(e, d0, W);
    F.Closed(e, u);
    F.MulFront(F.mul(e, u), x, x0);
    F.MulFront(W', y, x0);
    F.MulCancel(W', F.mul(e, F.mul(x, y0)), F.mul(y, x0));
  }

  /** Scaling the columns below the identity until row n is ones, and then the rows until column 0 is, fixes every
      entry. */
  lemma EntryFixed<E(!new)>(F: Field<E>, points: seq<E>, rows: nat, n: nat, M: seq<seq<E>>, C: seq<seq<E>>, j: nat,
                            r: nat, d: E, d0: E, e: E)
    requires F.Valid() && Points(F, points) && j < n <= r < rows <= |points|
    requires Combines(F, VandermondeRows(F, points, rows, n), M, C, n) && |M| == rows
    requires forall t | 0 <= t < n :: M[t] == UnitVec(F, n, t)
    requires F.elem(d) && F.elem(d0) && F.elem(e) && |M[n]| == |M[r]| == n
    requires F.mul(d, M[n][j]) == M[r][j] && F.mul(d0, M[n][0]) == M[r][0] && F.mul(e, d0) == d
    ensures F.mul(e, F.mul(Gap(F, points, rows, r, j), Gap(F, points, rows, n, 0))) ==
      F.mul(Gap(F, points, rows, n, j), Gap(F, points, rows, r, 0))
  {
    hide Combines, NodeAt, Gap, Whole, Points;
    var x, y, x0, y0 := Gap(F, points, rows, r, j), Gap(F, points, rows, n, j), Gap(F, points, rows, r, 0),
      Gap(F, points, rows, n, 0);
    var W, W' := Whole(F, points, rows, n, n), Whole(F, points, rows, n, r);
    GapElem(F, points, rows, r, j);
    GapElem(F, points, rows, n, j);
    GapElem(F, points, rows, r, 0);
    GapElem(F, points, rows, n, 0);
    WholeNonzero(F, points, rows, n, n);
    WholeNonzero(F, points, rows, n, r);
    ColumnGap(F, points, rows, n, M, C, j, n);
    ColumnGap(F, points, rows, n, M, C, j, r);
    ScaledColumn(F, d, M[n][j], M[r][j], NodeAt(F, points, rows, n, j, j), x, y, W, W');
    ColumnGap(F, points, rows, n, M, C, 0, n);
    ColumnGap(F, points, rows, n, M, C, 0, r);
    ScaledColumn(F, d0, M[n][0], M[r][0], NodeAt(F, points, rows, n, 0, 0), x0, y0, W, W');
    ScaledRow(F, e, d, d0, W, W', x, y, x0, y0);
  }
}

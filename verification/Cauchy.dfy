/** Cauchy coding matrices (cauchy.c): entry (i, j) is 1 / (X[i] + Y[j]). A vector x that the chosen rows of the
    systematic matrix send to zero gives a polynomial of degree below k, the sum over j of x[j] times the
    product of z + Y[l] over l other than j, with a root at X[i] for every chosen coding device i and at Y[d]
    for every chosen data device d. */
module Cauchy {
  import opened Fields
  import opened LinearAlgebra
  import opened Elimination
  import opened Erasures
  import opened Galois
  import opened LogTables
  import opened MatrixDecoding
  import opened Options
  import Poly = Polynomials
  import opened Independence

  ghost predicate CauchyPoints<E(!new)>(F: Field<E>, X: seq<E>, Y: seq<E>) {
    IsVec(F, X, |X|) && IsVec(F, Y, |Y|) && NoRepeats(X + Y)
  }

  lemma Apart<E(!new)>(F: Field<E>, X: seq<E>, Y: seq<E>, i: nat, j: nat)
    requires F.Valid() && CauchyPoints(F, X, Y) && i < |X| && j < |Y|
    ensures F.elem(F.add(X[i], Y[j])) && F.add(X[i], Y[j]) != F.zero
  {
    assert (X + Y)[i] == X[i] && (X + Y)[|X| + j] == Y[j];
    F.AddCancel(X[i], Y[j]);
    F.Closed(X[i], Y[j]);
  }

  ghost function CauchyRow<E(!new)>(F: Field<E>, Y: seq<E>, z: E): (row: seq<E>)
    ensures |row| == |Y|
  {
    seq(|Y|, j requires 0 <= j < |Y| => F.inv(F.add(z, Y[j])))
  }

  ghost function CauchyRows<E(!new)>(F: Field<E>, X: seq<E>, Y: seq<E>): (C: seq<seq<E>>)
    ensures |C| == |X|
  {
    seq(|X|, i requires 0 <= i < |X| => CauchyRow(F, Y, X[i]))
  }

  lemma CauchyIsMatrix<E(!new)>(F: Field<E>, X: seq<E>, Y: seq<E>)
    requires F.Valid() && CauchyPoints(F, X, Y)
    ensures IsMatrix(F, CauchyRows(F, X, Y), |X|, |Y|)
  {
    forall i, j | 0 <= i < |X| && 0 <= j < |Y|
      ensures F.elem(CauchyRows(F, X, Y)[i][j])
    {
      Apart(F, X, Y, i, j);
      F.InvCancel(F.add(X[i], Y[j]), F.one);
    }
  }

  // ---- The polynomial, over the first n data devices.

  // The product of z + Y[l], and the sum over j of x[j] times that product without factor j.
  ghost function Product<E(!new)>(F: Field<E>, Y: seq<E>, n: nat, z: E): E
    requires n <= |Y|
  {
    if n == 0 then F.one else F.mul(F.add(z, Y[n - 1]), Product(F, Y, n - 1, z))
  }

  ghost function Mixed<E(!new)>(F: Field<E>, x: seq<E>, Y: seq<E>, n: nat, z: E): E
    requires n <= |Y| == |x|
  {
    if n == 0 then F.zero
    else F.add(F.mul(F.add(z, Y[n - 1]), Mixed(F, x, Y, n - 1, z)), F.mul(x[n - 1], Product(F, Y, n - 1, z)))
  }

  lemma {:induction false} MixedElems<E(!new)>(F: Field<E>, x: seq<E>, Y: seq<E>, n: nat, z: E)
    requires F.Valid() && n <= |Y| == |x| && IsVec(F, x, |x|) && IsVec(F, Y, |Y|) && F.elem(z)
    ensures F.elem(Product(F, Y, n, z)) && F.elem(Mixed(F, x, Y, n, z))
  {
    if n > 0 {
      MixedElems(F, x, Y, n - 1, z);
      F.Closed(z, Y[n - 1]);
      F.Closed(F.add(z, Y[n - 1]), Product(F, Y, n - 1, z));
      F.Closed(F.add(z, Y[n - 1]), Mixed(F, x, Y, n - 1, z));
      F.Closed(x[n - 1], Product(F, Y, n - 1, z));
      F.Closed(F.mul(F.add(z, Y[n - 1]), Mixed(F, x, Y, n - 1, z)), F.mul(x[n - 1], Product(F, Y, n - 1, z)));
    }
  }

  // Both are polynomials: n coefficients suffice for Mixed.
  lemma {:induction false} Coefficients<E(!new)>(F: Field<E>, x: seq<E>, Y: seq<E>, n: nat)
    returns (a: seq<E>, b: seq<E>)
    requires F.Valid() && n <= |Y| == |x| && IsVec(F, x, |x|) && IsVec(F, Y, |Y|)
    ensures IsVec(F, a, n) && IsVec(F, b, n + 1)
    ensures forall z | F.elem(z) :: Poly.Eval(F, a, z) == Mixed(F, x, Y, n, z)
    ensures forall z | F.elem(z) :: Poly.Eval(F, b, z) == Product(F, Y, n, z)
  {
    if n == 0 {
      a, b := [], [F.one];
      forall z | F.elem(z)
        ensures Poly.Eval(F, b, z) == F.one
      {
        F.MulZero(z);
        F.AddZero(F.one);
        assert b[1..] == [];
      }
    } else {
      var a', b' := Coefficients(F, x, Y, n - 1);
      var y, t := Y[n - 1], x[n - 1];
      b := Poly.TimesLinear(F, b', y);
      a := AddScaled(F, Poly.TimesLinear(F, a', y), t, b');
      Poly.TimesLinearEval(F, b', y, F.zero);
      Poly.TimesLinearEval(F, a', y, F.zero);
      AddScaledElems(F, Poly.TimesLinear(F, a', y), t, b');
      forall z | F.elem(z)
        ensures Poly.Eval(F, a, z) == Mixed(F, x, Y, n, z) && Poly.Eval(F, b, z) == Product(F, Y, n, z)
      {
        Poly.TimesLinearEval(F, b', y, z);
        Poly.TimesLinearEval(F, a', y, z);
        Poly.EvalAddScaled(F, Poly.TimesLinear(F, a', y), t, b', z);
      }
    }
  }

  // At a coding device the polynomial is the product of its row with x, times a nonzero factor.
  lemma {:induction false} AtCoding<E(!new)>(F: Field<E>, x: seq<E>, X: seq<E>, Y: seq<E>, i: nat, n: nat)
    requires F.Valid() && CauchyPoints(F, X, Y) && n <= |Y| == |x| && IsVec(F, x, |x|) && i < |X|
    ensures Mixed(F, x, Y, n, X[i]) == F.mul(Product(F, Y, n, X[i]), DotTo(F, CauchyRow(F, Y, X[i]), x, n))
  {
    var z, row := X[i], CauchyRow(F, Y, X[i]);
    if n == 0 {
      F.MulZero(F.one);
    } else {
      AtCoding(F, x, X, Y, i, n - 1);
      Apart(F, X, Y, i, n - 1);
      var s, p, d, v := F.add(z, Y[n - 1]), Product(F, Y, n - 1, z), DotTo(F, row, x, n - 1), x[n - 1];
      MixedElems(F, x, Y, n - 1, z);
      CauchyIsMatrix(F, X, Y);
      assert IsVec(F, CauchyRows(F, X, Y)[i], |Y|);
      DotElem(F, row, x, n - 1);
      CommonFactor(F, s, p, d, v);
      assert Mixed(F, x, Y, n, z) == F.add(F.mul(s, Mixed(F, x, Y, n - 1, z)), F.mul(v, p));
      assert Product(F, Y, n, z) == F.mul(s, p);
      assert row[n - 1] == F.inv(s);
      assert DotTo(F, row, x, n) == F.add(d, F.mul(row[n - 1], v));
    }
  }

  lemma CommonFactor<E(!new)>(F: Field<E>, s: E, p: E, d: E, v: E)
    requires F.Valid() && F.elem(s) && F.elem(p) && F.elem(d) && F.elem(v) && s != F.zero
    ensures F.add(F.mul(s, F.mul(p, d)), F.mul(v, p)) == F.mul(F.mul(s, p), F.add(d, F.mul(F.inv(s), v)))
  {
    F.InvCancel(s, v);
    F.Closed(F.inv(s), v);
    F.Closed(s, p);
    F.Closed(p, d);
    assert F.MulLaws(F.mul(s, p), d, F.mul(F.inv(s), v));
    assert F.MulLaws(s, p, d);
    assert F.MulLaws(p, s, F.mul(F.inv(s), v)) && F.MulLaws(s, p, p) && F.MulLaws(p, v, v);
  }

  // At data device d the polynomial is x[d] times a nonzero factor.
  lemma {:induction false} AtData<E(!new)>(F: Field<E>, x: seq<E>, Y: seq<E>, d: nat, n: nat)
    requires F.Valid() && IsVec(F, Y, |Y|) && NoRepeats(Y) && d < |Y| == |x| && n <= |Y| && IsVec(F, x, |x|)
    ensures Product(F, Y, n, Y[d]) == F.zero <==> d < n
    ensures d < n ==> (Mixed(F, x, Y, n, Y[d]) == F.zero <==> x[d] == F.zero)
  {
    if n > 0 {
      AtData(F, x, Y, d, n - 1);
      var s, p, q, v := F.add(Y[d], Y[n - 1]), Product(F, Y, n - 1, Y[d]), Mixed(F, x, Y, n - 1, Y[d]), x[n - 1];
      MixedElems(F, x, Y, n - 1, Y[d]);
      F.Closed(Y[d], Y[n - 1]);
      F.AddCancel(Y[d], Y[n - 1]);
      F.MulNonzero(s, p);
      F.MulNonzero(s, q);
      F.MulNonzero(v, p);
      F.Closed(v, p);
      F.Closed(s, q);
      F.AddZero(F.mul(v, p));
      F.AddZero(F.mul(s, q));
    }
  }

  // ---- Independence.

  // The point of each device: Y[d] for data, X[i] for coding.
  function PointOf<E>(X: seq<E>, Y: seq<E>, d: nat): E
    requires d < |X| + |Y|
  {
    if d < |Y| then Y[d] else X[d - |Y|]
  }

  lemma PointsDiffer<E(!new)>(F: Field<E>, X: seq<E>, Y: seq<E>, c: nat, d: nat)
    requires CauchyPoints(F, X, Y) && c < |X| + |Y| && d < |X| + |Y| && c != d
    ensures PointOf(X, Y, c) != PointOf(X, Y, d) && F.elem(PointOf(X, Y, c))
  {
    var i, j := if c < |Y| then |X| + c else c - |Y|, if d < |Y| then |X| + d else d - |Y|;
    assert (X + Y)[i] == PointOf(X, Y, c) && (X + Y)[j] == PointOf(X, Y, d);
  }

  // A chosen row that sends x to zero makes its point a root.
  lemma CodingRoot<E(!new)>(F: Field<E>, X: seq<E>, Y: seq<E>, x: seq<E>, i: nat)
    requires F.Valid() && CauchyPoints(F, X, Y) && |x| == |Y| && IsVec(F, x, |x|) && i < |X|
    requires Dot(F, CauchyRow(F, Y, X[i]), x) == F.zero
    ensures Mixed(F, x, Y, |Y|, X[i]) == F.zero
  {
    AtCoding(F, x, X, Y, i, |Y|);
    MixedElems(F, x, Y, |Y|, X[i]);
    F.MulZero(Product(F, Y, |Y|, X[i]));
  }

  lemma RootAt<E(!new)>(F: Field<E>, X: seq<E>, Y: seq<E>, x: seq<E>, d: nat)
    requires F.Valid() && CauchyPoints(F, X, Y) && |x| == |Y| && IsVec(F, x, |x|) && d < |X| + |Y|
    requires Dot(F, DeviceRow(F, |Y|, CauchyRows(F, X, Y), d), x) == F.zero
    ensures Mixed(F, x, Y, |Y|, PointOf(X, Y, d)) == F.zero
  {
    hide Mixed, Product;
    if d < |Y| {
      DotUnit(F, x, d);
      DataDistinct(F, X, Y);
      AtData(F, x, Y, d, |Y|);
    } else {
      CodingRoot(F, X, Y, x, d - |Y|);
    }
  }

  lemma DataDistinct<E(!new)>(F: Field<E>, X: seq<E>, Y: seq<E>)
    requires CauchyPoints(F, X, Y)
    ensures NoRepeats(Y)
  {
    forall i, j | 0 <= i < j < |Y|
      ensures Y[i] != Y[j]
    {
      assert (X + Y)[|X| + i] == Y[i] && (X + Y)[|X| + j] == Y[j];
    }
  }

  lemma CauchyKernel<E(!new)>(F: Field<E>, X: seq<E>, Y: seq<E>, ids: seq<nat>, x: seq<E>)
    requires F.Valid() && CauchyPoints(F, X, Y) && IsVec(F, x, |Y|) && Chosen(ids, |Y|, |X| + |Y|)
    requires forall t | 0 <= t < |Y| :: Dot(F, DeviceRow(F, |Y|, CauchyRows(F, X, Y), ids[t]), x) == F.zero
    ensures x == ZeroVec(F, |Y|)
  {
    hide Dot, DeviceRow, Mixed, Product;
    var k := |Y|;
    var a, b := Coefficients(F, x, Y, k);
    var roots := seq(k, t requires 0 <= t < k => PointOf(X, Y, ids[t]));
    forall t | 0 <= t < k
      ensures Poly.Eval(F, a, roots[t]) == F.zero && F.elem(roots[t])
    {
      RootAt(F, X, Y, x, ids[t]);
      PointElem(F, X, Y, ids[t]);
    }
    forall t, u | 0 <= t < u < k
      ensures roots[t] != roots[u]
    {
      PointsDiffer(F, X, Y, ids[t], ids[u]);
    }
    Poly.TooManyRoots(F, a, roots);
    DataDistinct(F, X, Y);
    forall d | 0 <= d < k
      ensures x[d] == F.zero
    {
      Poly.EvalZero(F, a, Y[d]);
      AtData(F, x, Y, d, k);
    }
  }

  lemma PointElem<E(!new)>(F: Field<E>, X: seq<E>, Y: seq<E>, d: nat)
    requires CauchyPoints(F, X, Y) && d < |X| + |Y|
    ensures F.elem(PointOf(X, Y, d))
  {
  }

  /** Any k devices of a Cauchy code determine the data. */
  lemma CauchyAnyRows<E(!new)>(F: Field<E>, X: seq<E>, Y: seq<E>)
    requires F.Valid() && CauchyPoints(F, X, Y)
    ensures IsMatrix(F, CauchyRows(F, X, Y), |X|, |Y|)
    ensures AnyRows(F, Systematic(F, |Y|, CauchyRows(F, X, Y)), |Y|)
  {
    hide Dot, DeviceRow, CauchyRows;
    var C, k := CauchyRows(F, X, Y), |Y|;
    CauchyIsMatrix(F, X, Y);
    SystematicIsMatrix(F, k, C);
    var M := Systematic(F, k, C);
    forall ids | Chosen(ids, k, |M|)
      ensures Independent(F, M, k, ids)
    {
      forall x | IsVec(F, x, k) && Kills(F, M, k, ids, x)
        ensures x == ZeroVec(F, k)
      {
        forall t | 0 <= t < k
          ensures Dot(F, DeviceRow(F, k, C, ids[t]), x) == F.zero
        {
          assert M[ids[t]] == DeviceRow(F, k, C, ids[t]);
        }
        CauchyKernel(F, X, Y, ids, x);
      }
    }
  }

  // ---- The integers as points.

  lemma WordsDiffer(w: nat, i: nat, j: nat)
    requires i < Pow2(w) && j < Pow2(w) && i != j
    ensures Bits(i, w) != Bits(j, w)
  {
    NumBits(i, w);
    NumBits(j, w);
  }

  // The words first, first + 1, ...
  ghost function Words(w: nat, first: nat, n: nat): (s: seq<seq<bool>>)
    ensures |s| == n && forall i | 0 <= i < n :: s[i] == Bits(first + i, w)
  {
    seq(n, i requires 0 <= i < n => Bits(first + i, w))
  }

  lemma WordAt(w: nat, k: nat, m: nat, i: nat)
    requires i < m + k
    ensures (Words(w, 0, m) + Words(w, m, k))[i] == Bits(i, w)
  {
    hide Words, Bits;
    if i < m {
      assert (Words(w, 0, m) + Words(w, m, k))[i] == Words(w, 0, m)[i];
    } else {
      assert (Words(w, 0, m) + Words(w, m, k))[i] == Words(w, m, k)[i - m];
    }
  }

  lemma WordPoints(g: seq<bool>, k: nat, m: nat)
    requires k + m <= Pow2(|g|)
    ensures CauchyPoints(GF(g), Words(|g|, 0, m), Words(|g|, m, k))
  {
    hide Bits, Pow2, Xor, Mul, FindInverse, Words;
    var s := Words(|g|, 0, m) + Words(|g|, m, k);
    forall i, j | 0 <= i < j < |s|
      ensures s[i] != s[j]
    {
      WordAt(|g|, k, m, i);
      WordAt(|g|, k, m, j);
      WordsDiffer(|g|, i, j);
    }
  }

  // galois_single_divide(1, b, w), which answers -1 for b == 0.
  function Inverted(g: seq<bool>, b: seq<bool>): Option<seq<bool>>
    requires Primitive(g) && |b| == |g|
  {
    if b == Zero(|g|) then None else Some(GF(g).inv(b))
  }

  /** cauchy_xy_coding_matrix. Where X and Y share a value there is no quotient; otherwise the entry times the sum
      of X[i] and Y[j] is 1. When they share none, this is the matrix any |Y| of whose devices determine the data. */
  method CauchyXyMatrix(g: seq<bool>, X: seq<seq<bool>>, Y: seq<seq<bool>>) returns (matrix: array2<Option<seq<bool>>>)
    requires Primitive(g) && IsVec(GF(g), X, |X|) && IsVec(GF(g), Y, |Y|)
    ensures fresh(matrix) && matrix.Length0 == |X| && matrix.Length1 == |Y|
    ensures forall i, j | 0 <= i < |X| && 0 <= j < |Y| :: matrix[i, j] == None <==> X[i] == Y[j]
    ensures forall i, j | 0 <= i < |X| && 0 <= j < |Y| && X[i] != Y[j] ::
      |matrix[i, j].value| == |g| && Mul(g, matrix[i, j].value, Xor(X[i], Y[j])) == One(|g|)
    ensures CauchyPoints(GF(g), X, Y) ==>
      forall i, j | 0 <= i < |X| && 0 <= j < |Y| :: matrix[i, j] == Some(CauchyRows(GF(g), X, Y)[i][j])
  {
    hide FindInverse, Xor, Mul, DistinctPowers;
    matrix := new Option<seq<bool>>[|X|, |Y|]((i, j) => None);
    for i := 0 to |X|
      invariant forall r, c | 0 <= r < i && 0 <= c < |Y| :: matrix[r, c] == Inverted(g, Xor(X[r], Y[c]))
    {
      for j := 0 to |Y|
        invariant forall r, c | 0 <= r < i && 0 <= c < |Y| :: matrix[r, c] == Inverted(g, Xor(X[r], Y[c]))
        invariant forall c | 0 <= c < j :: matrix[i, c] == Inverted(g, Xor(X[i], Y[c]))
      {
        matrix[i, j] := Inverted(g, Xor(X[i], Y[j]));
      }
    }
    forall i, j | 0 <= i < |X| && 0 <= j < |Y|
      ensures Inverted(g, Xor(X[i], Y[j])) == None <==> X[i] == Y[j]
      ensures X[i] != Y[j] ==> |matrix[i, j].value| == |g| && Mul(g, matrix[i, j].value, Xor(X[i], Y[j])) == One(|g|)
    {
      Quotient(g, X[i], Y[j]);
    }
    if CauchyPoints(GF(g), X, Y) {
      GFValid(g);
      forall i, j | 0 <= i < |X| && 0 <= j < |Y|
        ensures matrix[i, j] == Some(CauchyRows(GF(g), X, Y)[i][j])
      {
        Apart(GF(g), X, Y, i, j);
      }
    }
  }

  lemma Quotient(g: seq<bool>, x: seq<bool>, y: seq<bool>)
    requires Primitive(g) && |x| == |y| == |g|
    ensures Xor(x, y) == Zero(|g|) <==> x == y
    ensures x != y ==> |GF(g).inv(Xor(x, y))| == |g| && Mul(g, GF(g).inv(Xor(x, y)), Xor(x, y)) == One(|g|)
  {
    hide FindInverse, DistinctPowers, Mul, Xor;
    GFValid(g);
    GF(g).AddCancel(x, y);
    if x != y {
      GF(g).InvCancel(Xor(x, y), x);
    }
  }

  /** cauchy_original_coding_matrix: 1 / (i xor (m + j)), unless there are more devices than words. */
  method CauchyOriginal(g: seq<bool>, k: nat, m: nat) returns (matrix: array2?<seq<bool>>)
    requires Primitive(g) && (|g| >= 31 ==> k + m <= Pow2(|g|))
    ensures matrix == null <==> k + m > Pow2(|g|)
    ensures matrix != null ==>
      fresh(matrix) && matrix.Length0 == m && matrix.Length1 == k && IsMatrix(GF(g), Rows(matrix), m, k)
    ensures matrix != null ==> forall i, j | 0 <= i < m && 0 <= j < k ::
      |matrix[i, j]| == |g| && Mul(g, matrix[i, j], Xor(Bits(i, |g|), Bits(m + j, |g|))) == One(|g|)
    ensures matrix != null ==> AnyRows(GF(g), Systematic(GF(g), k, Rows(matrix)), k)
  {
    hide FindInverse, Xor, Pow2, AnyRows, Bits, Systematic, DistinctPowers, CauchyWords, Mul;
    var w := |g|;
    if w < 31 && k + m > Pow2(w) {
      return null;
    }
    ghost var C := CauchyWords(g, k, m);
    CauchyWordsCode(g, k, m);
    matrix := new seq<bool>[m, k]((i, j) => []);
    for i := 0 to m
      invariant forall r, c | 0 <= r < i && 0 <= c < k :: matrix[r, c] == C[r][c]
    {
      for j := 0 to k
        invariant forall r, c | 0 <= r < i && 0 <= c < k :: matrix[r, c] == C[r][c]
        invariant forall c | 0 <= c < j :: matrix[i, c] == C[i][c]
      {
        CauchyWordsAt(g, k, m, i, j);
        matrix[i, j] := GF(g).inv(Xor(Bits(i, w), Bits(m + j, w)));
      }
    }
    assert forall i | 0 <= i < m :: Rows(matrix)[i] == C[i];
    assert Rows(matrix) == C;
    forall i, j | 0 <= i < m && 0 <= j < k
      ensures |matrix[i, j]| == w && Mul(g, matrix[i, j], Xor(Bits(i, w), Bits(m + j, w))) == One(w)
    {
      CauchyWordsTimes(g, k, m, i, j);
    }
  }

  lemma CauchyWordsTimes(g: seq<bool>, k: nat, m: nat, i: nat, j: nat)
    requires Primitive(g) && k + m <= Pow2(|g|) && i < m && j < k
    ensures |CauchyWords(g, k, m)[i][j]| == |g|
    ensures Mul(g, CauchyWords(g, k, m)[i][j], Xor(Bits(i, |g|), Bits(m + j, |g|))) == One(|g|)
  {
    hide FindInverse, Xor, Bits, Mul, Pow2, DistinctPowers, CauchyWords;
    CauchyWordsAt(g, k, m, i, j);
    WordsDiffer(|g|, i, m + j);
    Quotient(g, Bits(i, |g|), Bits(m + j, |g|));
  }

  // The matrix for X the words of 0 to m - 1 and Y those of m to m + k - 1.
  ghost function CauchyWords(g: seq<bool>, k: nat, m: nat): (C: seq<seq<seq<bool>>>)
    ensures |C| == m && forall i | 0 <= i < m :: |C[i]| == k
  {
    CauchyRows(GF(g), Words(|g|, 0, m), Words(|g|, m, k))
  }

  lemma CauchyWordsAt(g: seq<bool>, k: nat, m: nat, i: nat, j: nat)
    requires i < m && j < k
    ensures CauchyWords(g, k, m)[i][j] == GF(g).inv(Xor(Bits(i, |g|), Bits(m + j, |g|)))
  {
    hide FindInverse, Xor, Bits;
  }

  lemma CauchyWordsCode(g: seq<bool>, k: nat, m: nat)
    requires Primitive(g) && k + m <= Pow2(|g|)
    ensures IsMatrix(GF(g), CauchyWords(g, k, m), m, k)
    ensures AnyRows(GF(g), Systematic(GF(g), k, CauchyWords(g, k, m)), k)
  {
    hide GF, Pow2, AnyRows, Systematic, DistinctPowers, CauchyPoints, CauchyRows;
    WordPoints(g, k, m);
    GFValid(g);
    CauchyIsMatrix(GF(g), Words(|g|, 0, m), Words(|g|, m, k));
    CauchyAnyRows(GF(g), Words(|g|, 0, m), Words(|g|, m, k));
  }
}

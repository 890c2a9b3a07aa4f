/** Vectors and matrices over a field, as sequences. */
module LinearAlgebra {
  import opened Fields

  predicate IsVec<E(!new)>(F: Field<E>, v: seq<E>, n: nat) {
    |v| == n && forall i | 0 <= i < n :: F.elem(v[i])
  }

  predicate IsMatrix<E(!new)>(F: Field<E>, A: seq<seq<E>>, r: nat, c: nat) {
    |A| == r && forall i | 0 <= i < r :: IsVec(F, A[i], c)
  }

  function ZeroVec<E(!new)>(F: Field<E>, n: nat): seq<E> {
    seq(n, i => F.zero)
  }

  function UnitVec<E(!new)>(F: Field<E>, n: nat, u: int): seq<E> {
    seq(n, i => if i == u then F.one else F.zero)
  }

  function Identity<E(!new)>(F: Field<E>, n: nat): seq<seq<E>> {
    seq(n, i => UnitVec(F, n, i))
  }

  // The sum of the products of the first n positions.
  function DotTo<E(!new)>(F: Field<E>, a: seq<E>, b: seq<E>, n: nat): E
    requires n <= |a| && n <= |b|
  {
    if n == 0 then F.zero else F.add(DotTo(F, a, b, n - 1), F.mul(a[n - 1], b[n - 1]))
  }

  function Dot<E(!new)>(F: Field<E>, a: seq<E>, b: seq<E>): E
    requires |a| == |b|
  {
    DotTo(F, a, b, |a|)
  }

  function MatVec<E(!new)>(F: Field<E>, A: seq<seq<E>>, x: seq<E>): seq<E>
    requires forall i | 0 <= i < |A| :: |A[i]| == |x|
  {
    seq(|A|, i requires 0 <= i < |A| => Dot(F, A[i], x))
  }

  // a + t*b, the elementary row operation.
  function AddScaled<E(!new)>(F: Field<E>, a: seq<E>, t: E, b: seq<E>): seq<E>
    requires |a| == |b|
  {
    seq(|a|, i requires 0 <= i < |a| => F.add(a[i], F.mul(t, b[i])))
  }

  function Scaled<E(!new)>(F: Field<E>, t: E, a: seq<E>): seq<E> {
    seq(|a|, i requires 0 <= i < |a| => F.mul(t, a[i]))
  }

  // A square matrix is nonsingular when only the zero vector is sent to zero.
  ghost predicate Nonsingular<E(!new)>(F: Field<E>, A: seq<seq<E>>, n: nat)
    requires IsMatrix(F, A, n, n)
  {
    forall x | IsVec(F, x, n) && MatVec(F, A, x) == ZeroVec(F, n) :: x == ZeroVec(F, n)
  }

  // B undoes A on either side.
  ghost predicate Inverses<E(!new)>(F: Field<E>, A: seq<seq<E>>, B: seq<seq<E>>, n: nat)
    requires IsMatrix(F, A, n, n) && IsMatrix(F, B, n, n)
  {
    forall x | IsVec(F, x, n) :: MatVec(F, B, MatVec(F, A, x)) == x && MatVec(F, A, MatVec(F, B, x)) == x
  }

  lemma DotElem<E(!new)>(F: Field<E>, a: seq<E>, b: seq<E>, n: nat)
    requires F.Valid() && n <= |a| && n <= |b|
    requires IsVec(F, a, |a|) && IsVec(F, b, |b|)
    ensures F.elem(DotTo(F, a, b, n))
  {
    if n > 0 {
      DotElem(F, a, b, n - 1);
      F.Closed(a[n - 1], b[n - 1]);
      F.Closed(DotTo(F, a, b, n - 1), F.mul(a[n - 1], b[n - 1]));
    }
  }

  lemma MatVecIsVec<E(!new)>(F: Field<E>, A: seq<seq<E>>, x: seq<E>, r: nat, c: nat)
    requires F.Valid() && IsMatrix(F, A, r, c) && IsVec(F, x, c)
    ensures IsVec(F, MatVec(F, A, x), r)
  {
    forall i | 0 <= i < r
      ensures F.elem(Dot(F, A[i], x))
    {
      DotElem(F, A[i], x, c);
    }
  }

  lemma DotCong<E(!new)>(F: Field<E>, a: seq<E>, b: seq<E>, c: seq<E>, d: seq<E>, n: nat)
    requires n <= |a| && n <= |b| && n <= |c| && n <= |d|
    requires forall i | 0 <= i < n :: a[i] == c[i] && b[i] == d[i]
    ensures DotTo(F, a, b, n) == DotTo(F, c, d, n)
  {
  }

  lemma DotComm<E(!new)>(F: Field<E>, a: seq<E>, b: seq<E>, n: nat)
    requires F.Valid() && n <= |a| && n <= |b|
    requires IsVec(F, a, |a|) && IsVec(F, b, |b|)
    ensures DotTo(F, a, b, n) == DotTo(F, b, a, n)
  {
    if n > 0 {
      DotComm(F, a, b, n - 1);
      assert F.MulLaws(a[n - 1], b[n - 1], a[n - 1]);
    }
  }

  // Products of rows with x respect the row operations.
  lemma {:induction false} DotAddScaled<E(!new)>(F: Field<E>, a: seq<E>, t: E, b: seq<E>, x: seq<E>, n: nat)
    requires F.Valid() && F.elem(t) && |a| == |b| == |x| && n <= |a|
    requires IsVec(F, a, |a|) && IsVec(F, b, |b|) && IsVec(F, x, |x|)
    ensures DotTo(F, AddScaled(F, a, t, b), x, n) == F.add(DotTo(F, a, x, n), F.mul(t, DotTo(F, b, x, n)))
  {
    if n == 0 {
      F.MulZero(t);
      F.AddZero(F.zero);
    } else {
      DotAddScaled(F, a, t, b, x, n - 1);
      DotElem(F, a, x, n - 1);
      DotElem(F, b, x, n - 1);
      F.SumStep(DotTo(F, a, x, n - 1), DotTo(F, b, x, n - 1), a[n - 1], b[n - 1], x[n - 1], t);
    }
  }

  lemma DotScaled<E(!new)>(F: Field<E>, t: E, a: seq<E>, x: seq<E>, n: nat)
    requires F.Valid() && F.elem(t) && |a| == |x| && n <= |a|
    requires IsVec(F, a, |a|) && IsVec(F, x, |x|)
    ensures DotTo(F, Scaled(F, t, a), x, n) == F.mul(t, DotTo(F, a, x, n))
  {
    if n == 0 {
      F.MulZero(t);
    } else {
      DotScaled(F, t, a, x, n - 1);
      DotElem(F, a, x, n - 1);
      F.Closed(a[n - 1], x[n - 1]);
      assert F.MulLaws(t, a[n - 1], x[n - 1]);
      assert F.MulLaws(t, DotTo(F, a, x, n - 1), F.mul(a[n - 1], x[n - 1]));
    }
  }

  // A row that is zero below n, or meets a vector that is, contributes nothing.
  lemma DotZero<E(!new)>(F: Field<E>, a: seq<E>, x: seq<E>, n: nat)
    requires F.Valid() && n <= |a| && n <= |x|
    requires IsVec(F, a, |a|) && IsVec(F, x, |x|)
    requires forall i | 0 <= i < n :: a[i] == F.zero || x[i] == F.zero
    ensures DotTo(F, a, x, n) == F.zero
  {
    if n > 0 {
      DotZero(F, a, x, n - 1);
      F.MulZero(x[n - 1]);
      F.MulZero(a[n - 1]);
      F.AddZero(F.zero);
    }
  }

  // When only position u can contribute, the product is that one term.
  lemma DotSingle<E(!new)>(F: Field<E>, a: seq<E>, x: seq<E>, n: nat, u: nat)
    requires F.Valid() && n <= |a| && n <= |x| && u < n
    requires IsVec(F, a, |a|) && IsVec(F, x, |x|)
    requires forall i | 0 <= i < n && i != u :: a[i] == F.zero || x[i] == F.zero
    ensures DotTo(F, a, x, n) == F.mul(a[u], x[u])
  {
    F.Closed(a[u], x[u]);
    if n - 1 == u {
      DotZero(F, a, x, n - 1);
      F.AddZero(F.mul(a[u], x[u]));
    } else {
      DotSingle(F, a, x, n - 1, u);
      F.MulZero(x[n - 1]);
      F.MulZero(a[n - 1]);
      F.AddZero(F.mul(a[u], x[u]));
    }
  }

  lemma DotUnit<E(!new)>(F: Field<E>, x: seq<E>, u: nat)
    requires F.Valid() && IsVec(F, x, |x|) && u < |x|
    ensures Dot(F, UnitVec(F, |x|, u), x) == x[u]
    ensures Dot(F, x, UnitVec(F, |x|, u)) == x[u]
  {
    var e := UnitVec(F, |x|, u);
    DotSingle(F, e, x, |x|, u);
    DotSingle(F, x, e, |x|, u);
    F.MulOne(x[u]);
  }

  lemma IdentityMatVec<E(!new)>(F: Field<E>, x: seq<E>)
    requires F.Valid() && IsVec(F, x, |x|)
    ensures IsMatrix(F, Identity(F, |x|), |x|, |x|)
    ensures MatVec(F, Identity(F, |x|), x) == x
  {
    forall i | 0 <= i < |x|
      ensures MatVec(F, Identity(F, |x|), x)[i] == x[i]
    {
      DotUnit(F, x, i);
    }
  }

  lemma MatVecZero<E(!new)>(F: Field<E>, A: seq<seq<E>>, r: nat, c: nat)
    requires F.Valid() && IsMatrix(F, A, r, c)
    ensures MatVec(F, A, ZeroVec(F, c)) == ZeroVec(F, r)
  {
    forall i | 0 <= i < r
      ensures Dot(F, A[i], ZeroVec(F, c)) == F.zero
    {
      DotZero(F, A[i], ZeroVec(F, c), c);
    }
  }
}

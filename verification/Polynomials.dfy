/** Polynomials over a field, lowest coefficient first: one of degree below t with t distinct roots is zero. */
module Polynomials {
  import opened Fields
  import opened LinearAlgebra
  import opened Erasures

  ghost function Eval<E(!new)>(F: Field<E>, c: seq<E>, z: E): E {
    if |c| == 0 then F.zero else F.add(c[0], F.mul(z, Eval(F, c[1..], z)))
  }

  lemma {:induction false} EvalElem<E(!new)>(F: Field<E>, c: seq<E>, z: E)
    requires F.Valid() && IsVec(F, c, |c|) && F.elem(z)
    ensures F.elem(Eval(F, c, z))
  {
    if |c| > 0 {
      EvalElem(F, c[1..], z);
      F.Closed(z, Eval(F, c[1..], z));
      F.Closed(c[0], F.mul(z, Eval(F, c[1..], z)));
    }
  }

  // The quotient by z + r.
  ghost function Quotient<E(!new)>(F: Field<E>, c: seq<E>, r: E): (q: seq<E>)
    requires |c| > 0
    ensures |q| == |c| - 1
  {
    if |c| == 1 then [] else [Eval(F, c[1..], r)] + Quotient(F, c[1..], r)
  }

  lemma {:induction false} QuotientElems<E(!new)>(F: Field<E>, c: seq<E>, r: E)
    requires F.Valid() && |c| > 0 && IsVec(F, c, |c|) && F.elem(r)
    ensures IsVec(F, Quotient(F, c, r), |c| - 1)
  {
    if |c| > 1 {
      QuotientElems(F, c[1..], r);
      EvalElem(F, c[1..], r);
    }
  }

  lemma DivisionStep<E(!new)>(F: Field<E>, c0: E, z: E, r: E, q: E, e: E)
    requires F.Valid() && F.elem(c0) && F.elem(z) && F.elem(r) && F.elem(q) && F.elem(e)
    ensures F.add(c0, F.mul(z, F.add(F.mul(F.add(z, r), q), e))) ==
            F.add(F.mul(F.add(z, r), F.add(e, F.mul(z, q))), F.add(c0, F.mul(r, e)))
  {
    var a := F.add(z, r);
    F.Closed(z, r);
    F.Closed(a, q);
    F.Closed(z, q);
    F.Closed(z, e);
    F.Closed(r, e);
    F.Closed(a, F.mul(z, q));
    var A, B, R := F.mul(z, F.mul(a, q)), F.mul(z, e), F.mul(r, e);
    F.Closed(z, F.mul(a, q));
    assert F.MulLaws(z, F.mul(a, q), e);
    assert F.MulLaws(a, e, F.mul(z, q));
    assert F.MulLaws(e, z, r) && F.MulLaws(z, e, e) && F.MulLaws(r, e, e) && F.MulLaws(a, e, e);
    assert F.MulLaws(a, z, q) && F.MulLaws(z, a, q);
    assert F.mul(a, F.add(e, F.mul(z, q))) == F.add(F.add(B, R), A);
    F.Closed(B, R);
    F.Closed(A, B);
    F.AddSwap(F.add(B, R), A, R, c0);
    F.AddCancel(B, R);
    assert F.AddLaws(R, c0, A) && F.AddLaws(A, c0, B) && F.AddLaws(A, B, c0) && F.AddLaws(B, A, c0) &&
        F.AddLaws(B, F.add(A, c0), A);
    F.Closed(A, c0);
    assert F.AddLaws(c0, F.add(A, B), A);
    assert F.AddLaws(c0, A, B);
  }

  lemma {:induction false} Division<E(!new)>(F: Field<E>, c: seq<E>, r: E, z: E)
    requires F.Valid() && |c| > 0 && IsVec(F, c, |c|) && F.elem(r) && F.elem(z)
    ensures Eval(F, c, z) == F.add(F.mul(F.add(z, r), Eval(F, Quotient(F, c, r), z)), Eval(F, c, r))
  {
    F.Closed(z, r);
    if |c| == 1 {
      F.MulZero(z);
      F.MulZero(r);
      F.MulZero(F.add(z, r));
      F.AddZero(c[0]);
    } else {
      var c', q := c[1..], Quotient(F, c, r);
      Division(F, c', r, z);
      QuotientElems(F, c', r);
      EvalElem(F, Quotient(F, c', r), z);
      EvalElem(F, c', r);
      assert q[1..] == Quotient(F, c', r);
      DivisionStep(F, c[0], z, r, Eval(F, Quotient(F, c', r), z), Eval(F, c', r));
    }
  }

  // A polynomial whose quotient and remainder by z + r are zero is zero.
  lemma {:induction false} ZeroQuotient<E(!new)>(F: Field<E>, c: seq<E>, r: E)
    requires F.Valid() && |c| > 0 && IsVec(F, c, |c|) && F.elem(r) && Eval(F, c, r) == F.zero
    requires forall i | 0 <= i < |c| - 1 :: Quotient(F, c, r)[i] == F.zero
    ensures forall i | 0 <= i < |c| :: c[i] == F.zero
  {
    F.MulZero(r);
    F.AddZero(c[0]);
    if |c| > 1 {
      var q := Quotient(F, c, r);
      assert q[0] == Eval(F, c[1..], r);
      assert forall i | 0 <= i < |c| - 2 :: Quotient(F, c[1..], r)[i] == q[i + 1];
      ZeroQuotient(F, c[1..], r);
    }
  }

  ghost predicate AllRoots<E(!new)>(F: Field<E>, c: seq<E>, roots: seq<E>) {
    IsVec(F, roots, |roots|) && forall i | 0 <= i < |roots| :: Eval(F, c, roots[i]) == F.zero
  }

  /** At least as many distinct roots as coefficients: every coefficient is zero. */
  lemma {:induction false} TooManyRoots<E(!new)>(F: Field<E>, c: seq<E>, roots: seq<E>)
    requires F.Valid() && IsVec(F, c, |c|) && NoRepeats(roots) && AllRoots(F, c, roots) && |roots| >= |c|
    ensures forall i | 0 <= i < |c| :: c[i] == F.zero
    decreases |c|
  {
    if |c| > 0 {
      var r, rest := roots[0], roots[1..];
      var q := Quotient(F, c, r);
      QuotientElems(F, c, r);
      forall i | 0 <= i < |rest|
        ensures Eval(F, q, rest[i]) == F.zero
      {
        var z := rest[i];
        assert z == roots[i + 1];
        Division(F, c, r, z);
        EvalElem(F, q, z);
        F.Closed(z, r);
        F.Closed(F.add(z, r), Eval(F, q, z));
        F.AddZero(F.mul(F.add(z, r), Eval(F, q, z)));
        F.AddCancel(z, r);
        F.MulNonzero(F.add(z, r), Eval(F, q, z));
      }
      TooManyRoots(F, q, rest);
      ZeroQuotient(F, c, r);
    }
  }

  lemma {:induction false} EvalZero<E(!new)>(F: Field<E>, c: seq<E>, z: E)
    requires F.Valid() && F.elem(z) && forall i | 0 <= i < |c| :: c[i] == F.zero
    ensures Eval(F, c, z) == F.zero
  {
    if |c| > 0 {
      EvalZero(F, c[1..], z);
      F.MulZero(z);
      F.AddZero(F.zero);
    }
  }

  // ---- Building polynomials.

  // t * a + b, coefficient by coefficient.
  lemma {:induction false} EvalAddScaled<E(!new)>(F: Field<E>, a: seq<E>, t: E, b: seq<E>, z: E)
    requires F.Valid() && |a| == |b| && IsVec(F, a, |a|) && IsVec(F, b, |b|) && F.elem(t) && F.elem(z)
    ensures Eval(F, AddScaled(F, a, t, b), z) == F.add(Eval(F, a, z), F.mul(t, Eval(F, b, z)))
  {
    if |a| == 0 {
      F.MulZero(t);
      F.AddZero(F.zero);
    } else {
      var a', b' := a[1..], b[1..];
      EvalAddScaled(F, a', t, b', z);
      assert AddScaled(F, a, t, b)[1..] == AddScaled(F, a', t, b');
      EvalElem(F, a', z);
      EvalElem(F, b', z);
      var A, B := Eval(F, a', z), Eval(F, b', z);
      F.Closed(t, B);
      F.Closed(z, A);
      F.Closed(z, B);
      F.Closed(t, b[0]);
      F.Closed(z, F.mul(t, B));
      assert F.MulLaws(z, A, F.mul(t, B));
      assert F.MulLaws(z, t, B) && F.MulLaws(t, z, B);
      assert F.MulLaws(t, b[0], F.mul(z, B));
      F.AddSwap(a[0], F.mul(t, b[0]), F.mul(z, A), F.mul(z, F.mul(t, B)));
    }
  }

  // (z + a) * c.
  ghost function TimesLinear<E(!new)>(F: Field<E>, c: seq<E>, a: E): (p: seq<E>)
    ensures |p| == |c| + 1
  {
    if |c| == 0 then [F.zero]
    else
      var rest := TimesLinear(F, c[1..], a);
      [F.mul(a, c[0]), F.add(c[0], rest[0])] + rest[1..]
  }

  lemma {:induction false} TimesLinearEval<E(!new)>(F: Field<E>, c: seq<E>, a: E, z: E)
    requires F.Valid() && IsVec(F, c, |c|) && F.elem(a) && F.elem(z)
    ensures IsVec(F, TimesLinear(F, c, a), |c| + 1)
    ensures Eval(F, TimesLinear(F, c, a), z) == F.mul(F.add(z, a), Eval(F, c, z))
  {
    F.Closed(z, a);
    if |c| == 0 {
      F.MulZero(z);
      F.AddZero(F.zero);
      F.MulZero(F.add(z, a));
      assert Eval(F, [F.zero], z) == F.add(F.zero, F.mul(z, Eval(F, [F.zero][1..], z)));
    } else {
      var c0, c' := c[0], c[1..];
      var rest, p := TimesLinear(F, c', a), TimesLinear(F, c, a);
      TimesLinearEval(F, c', a, z);
      F.Closed(a, c0);
      F.Closed(c0, rest[0]);
      assert forall i | 1 < i < |p| :: p[i] == rest[i - 1];
      var p' := p[1..];
      assert p'[1..] == rest[1..];
      EvalElem(F, rest[1..], z);
      EvalElem(F, c', z);
      TimesStep(F, c0, z, a, Eval(F, c', z), rest[0], Eval(F, rest[1..], z));
    }
  }

  lemma TimesStep<E(!new)>(F: Field<E>, c0: E, z: E, a: E, e: E, r0: E, s: E)
    requires F.Valid() && F.elem(c0) && F.elem(z) && F.elem(a) && F.elem(e) && F.elem(r0) && F.elem(s)
    requires F.add(r0, F.mul(z, s)) == F.mul(F.add(z, a), e)
    ensures F.add(F.mul(a, c0), F.mul(z, F.add(F.add(c0, r0), F.mul(z, s)))) ==
      F.mul(F.add(z, a), F.add(c0, F.mul(z, e)))
  {
    var b := F.add(z, a);
    F.Closed(z, a);
    F.Closed(z, s);
    F.Closed(z, e);
    F.Closed(b, e);
    F.Closed(a, c0);
    F.Closed(z, c0);
    assert F.AddLaws(c0, r0, F.mul(z, s));
    assert F.MulLaws(z, c0, F.mul(b, e));
    assert F.MulLaws(b, c0, F.mul(z, e));
    assert F.MulLaws(b, z, e) && F.MulLaws(z, b, e);
    assert F.MulLaws(c0, z, a) && F.MulLaws(z, c0, c0) && F.MulLaws(a, c0, c0) && F.MulLaws(b, c0, c0);
    F.Closed(z, F.mul(b, e));
    assert F.AddLaws(F.mul(a, c0), F.mul(z, c0), F.mul(z, F.mul(b, e)));
  }

  // One coefficient more.
  ghost function Power<E(!new)>(F: Field<E>, z: E, n: nat): E {
    if n == 0 then F.one else F.mul(Power(F, z, n - 1), z)
  }

  lemma {:induction false} PowerElem<E(!new)>(F: Field<E>, z: E, n: nat)
    requires F.Valid() && F.elem(z)
    ensures F.elem(Power(F, z, n))
  {
    if n > 0 {
      PowerElem(F, z, n - 1);
      F.Closed(Power(F, z, n - 1), z);
    }
  }

  lemma {:induction false} EvalSnoc<E(!new)>(F: Field<E>, c: seq<E>, t: E, z: E)
    requires F.Valid() && IsVec(F, c, |c|) && F.elem(t) && F.elem(z)
    ensures Eval(F, c + [t], z) == F.add(Eval(F, c, z), F.mul(Power(F, z, |c|), t))
  {
    if |c| == 0 {
      F.MulZero(z);
      F.AddZero(t);
      F.MulOne(t);
      assert (c + [t])[1..] == [];
    } else {
      var c' := c[1..];
      assert (c + [t])[1..] == c' + [t];
      EvalSnoc(F, c', t, z);
      EvalElem(F, c', z);
      var A, P := Eval(F, c', z), Power(F, z, |c'|);
      PowerElem(F, z, |c'|);
      F.Closed(P, t);
      F.Closed(z, A);
      F.Closed(z, F.mul(P, t));
      assert F.MulLaws(z, A, F.mul(P, t));
      assert F.MulLaws(z, P, t) && F.MulLaws(P, z, t);
      assert F.AddLaws(c[0], F.mul(z, A), F.mul(z, F.mul(P, t)));
    }
  }

  // A row of powers times the coefficients evaluates the polynomial.
  lemma {:induction false} PowersEvaluate<E(!new)>(F: Field<E>, row: seq<E>, x: seq<E>, z: E, n: nat)
    requires F.Valid() && |row| == |x| && n <= |x| && IsVec(F, x, |x|) && F.elem(z)
    requires forall j | 0 <= j < n :: row[j] == Power(F, z, j)
    ensures DotTo(F, row, x, n) == Eval(F, x[..n], z)
  {
    if n > 0 {
      PowersEvaluate(F, row, x, z, n - 1);
      EvalSnoc(F, x[..n - 1], x[n - 1], z);
      assert x[..n] == x[..n - 1] + [x[n - 1]];
    }
  }

  // ---- The polynomial with given roots.

  ghost function Nodes<E(!new)>(F: Field<E>, roots: seq<E>): (c: seq<E>)
    ensures |c| == |roots| + 1
  {
    if |roots| == 0 then [F.one] else TimesLinear(F, Nodes(F, roots[1..]), roots[0])
  }

  // Its value at z, the product of the differences.
  ghost function Along<E(!new)>(F: Field<E>, roots: seq<E>, z: E): E {
    if |roots| == 0 then F.one else F.mul(F.add(z, roots[0]), Along(F, roots[1..], z))
  }

  lemma {:induction false} NodesEval<E(!new)>(F: Field<E>, roots: seq<E>, z: E)
    requires F.Valid() && IsVec(F, roots, |roots|) && F.elem(z)
    ensures IsVec(F, Nodes(F, roots), |roots| + 1) && Eval(F, Nodes(F, roots), z) == Along(F, roots, z)
  {
    if |roots| == 0 {
      F.MulZero(z);
      F.AddZero(F.one);
      assert Nodes(F, roots)[1..] == [];
    } else {
      NodesEval(F, roots[1..], z);
      TimesLinearEval(F, Nodes(F, roots[1..]), roots[0], z);
    }
  }

  lemma {:induction false} TimesLinearLast<E(!new)>(F: Field<E>, c: seq<E>, a: E)
    requires F.Valid() && |c| > 0 && IsVec(F, c, |c|)
    ensures TimesLinear(F, c, a)[|c|] == c[|c| - 1]
  {
    if |c| == 1 {
      F.AddZero(c[0]);
    } else {
      TimesLinearLast(F, c[1..], a);
    }
  }

  lemma {:induction false} NodesMonic<E(!new)>(F: Field<E>, roots: seq<E>)
    requires F.Valid() && IsVec(F, roots, |roots|)
    ensures Nodes(F, roots)[|roots|] == F.one
  {
    if |roots| > 0 {
      NodesMonic(F, roots[1..]);
      NodesEval(F, roots[1..], F.one);
      TimesLinearLast(F, Nodes(F, roots[1..]), roots[0]);
    }
  }

  lemma {:induction false} AlongZero<E(!new)>(F: Field<E>, roots: seq<E>, z: E)
    requires F.Valid() && IsVec(F, roots, |roots|) && F.elem(z)
    ensures F.elem(Along(F, roots, z)) && (Along(F, roots, z) == F.zero <==> z in roots)
  {
    if |roots| > 0 {
      AlongZero(F, roots[1..], z);
      F.Closed(z, roots[0]);
      F.Closed(F.add(z, roots[0]), Along(F, roots[1..], z));
      F.AddCancel(z, roots[0]);
      F.MulNonzero(F.add(z, roots[0]), Along(F, roots[1..], z));
      assert roots == [roots[0]] + roots[1..];
    }
  }

  // One more root, in the middle.
  lemma {:induction false} AlongMiddle<E(!new)>(F: Field<E>, a: seq<E>, r: E, b: seq<E>, z: E)
    requires F.Valid() && IsVec(F, a, |a|) && IsVec(F, b, |b|) && F.elem(r) && F.elem(z)
    ensures Along(F, a + [r] + b, z) == F.mul(Along(F, a + b, z), F.add(z, r))
  {
    F.Closed(z, r);
    if |a| == 0 {
      assert a + [r] + b == [r] + b && a + b == b;
      assert ([r] + b)[1..] == b;
      AlongZero(F, b, z);
      assert F.MulLaws(F.add(z, r), Along(F, b, z), z);
    } else {
      var a' := a[1..];
      AlongMiddle(F, a', r, b, z);
      assert (a + [r] + b)[1..] == a' + [r] + b && (a + b)[1..] == a' + b;
      AlongZero(F, a' + b, z);
      F.Closed(z, a[0]);
      assert F.MulLaws(F.add(z, a[0]), Along(F, a' + b, z), F.add(z, r));
    }
  }
}

/** Finite fields of characteristic two, as values.

    The library computes in two fields: GF(2), where an element is one bit, and GF(2^w), where it is
    a word of w bits. Both are instances of the record below, so the linear algebra of encoding,
    elimination and decoding is stated once. Addition and subtraction are the same operation (xor).

    The laws are wrapped in small predicates: a proof names the instance of a law it needs, and no
    other instance reaches the solver. */
module Fields {

  datatype Field<!E(!new)> = Field(
    elem: E -> bool, zero: E, one: E,
    add: (E, E) -> E, mul: (E, E) -> E, inv: E -> E)
  {
    ghost predicate AddLaws(a: E, b: E, c: E) {
      elem(a) && elem(b) && elem(c) ==>
        && elem(add(a, b))
        && add(a, b) == add(b, a)
        && add(add(a, b), c) == add(a, add(b, c))
        && add(zero, a) == a
        && add(a, a) == zero
    }

    ghost predicate MulLaws(a: E, b: E, c: E) {
      elem(a) && elem(b) && elem(c) ==>
        && elem(mul(a, b))
        && mul(a, b) == mul(b, a)
        && mul(mul(a, b), c) == mul(a, mul(b, c))
        && mul(one, a) == a
        && mul(a, add(b, c)) == add(mul(a, b), mul(a, c))
    }

    ghost predicate InvLaw(a: E) {
      elem(a) && a != zero ==> elem(inv(a)) && mul(a, inv(a)) == one
    }

    ghost predicate Valid() {
      && elem(zero) && elem(one) && zero != one
      && (forall a, b, c :: AddLaws(a, b, c))
      && (forall a, b, c :: MulLaws(a, b, c))
      && (forall a :: InvLaw(a))
    }

    lemma AddZero(a: E)
      requires Valid() && elem(a)
      ensures add(a, zero) == a && add(zero, a) == a && add(a, a) == zero
    {
      assert AddLaws(a, zero, a);
    }

    lemma MulZero(a: E)
      requires Valid() && elem(a)
      ensures mul(a, zero) == zero && mul(zero, a) == zero
    {
      assert MulLaws(a, a, a) && MulLaws(a, zero, zero);
      assert AddLaws(zero, zero, zero) && AddLaws(mul(a, zero), mul(a, zero), zero);
    }

    lemma MulOne(a: E)
      requires Valid() && elem(a)
      ensures mul(one, a) == a && mul(a, one) == a
    {
      assert MulLaws(a, one, a);
    }

    lemma Closed(a: E, b: E)
      requires Valid() && elem(a) && elem(b)
      ensures elem(add(a, b)) && elem(mul(a, b))
    {
      assert AddLaws(a, b, a) && MulLaws(a, b, a);
    }

    lemma AddSwap(a: E, b: E, c: E, d: E)
      requires Valid() && elem(a) && elem(b) && elem(c) && elem(d)
      ensures add(add(a, b), add(c, d)) == add(add(a, c), add(b, d))
    {
      Closed(a, b);
      Closed(c, d);
      Closed(a, c);
      Closed(b, d);
      assert AddLaws(a, b, add(c, d)) && AddLaws(b, c, d) && AddLaws(c, b, d);
      assert AddLaws(a, c, add(b, d));
    }

    // In characteristic two, a == b exactly when a + b == 0.
    lemma AddCancel(a: E, b: E)
      requires Valid() && elem(a) && elem(b)
      ensures add(add(a, b), b) == a
      ensures add(b, add(a, b)) == a
      ensures add(a, b) == zero <==> a == b
    {
      assert AddLaws(a, b, b) && AddLaws(b, b, b) && AddLaws(a, zero, a) && AddLaws(a, a, a);
      assert AddLaws(add(a, b), b, b);
    }

    lemma MulNonzero(a: E, b: E)
      requires Valid() && elem(a) && elem(b)
      ensures mul(a, b) == zero <==> a == zero || b == zero
    {
      MulZero(a);
      MulZero(b);
      if a != zero && mul(a, b) == zero {
        assert InvLaw(a);
        MulZero(inv(a));
        assert MulLaws(inv(a), a, b);
        assert MulLaws(a, inv(a), b) && MulLaws(b, b, b);
        assert mul(inv(a), mul(a, b)) == b;
      }
    }

    // Dividing by a and multiplying by a undo each other.
    lemma InvCancel(a: E, b: E)
      requires Valid() && elem(a) && elem(b) && a != zero
      ensures elem(inv(a)) && inv(a) != zero && mul(inv(a), a) == one
      ensures mul(inv(a), mul(a, b)) == b && mul(a, mul(inv(a), b)) == b
    {
      assert InvLaw(a);
      assert MulLaws(inv(a), a, b);
      assert MulLaws(a, inv(a), b) && MulLaws(b, b, b);
      MulZero(a);
    }

    lemma MulFront(a: E, b: E, c: E)
      requires Valid() && elem(a) && elem(b) && elem(c)
      ensures mul(a, mul(b, c)) == mul(b, mul(a, c)) && mul(a, mul(b, c)) == mul(mul(a, b), c)
      ensures mul(mul(a, b), c) == mul(mul(a, c), b)
    {
      Closed(a, b);
      Closed(b, c);
      Closed(a, c);
      assert MulLaws(a, b, c) && MulLaws(b, a, c) && MulLaws(b, mul(a, c), a);
    }

    lemma MulCancel(w: E, a: E, b: E)
      requires Valid() && elem(w) && elem(a) && elem(b) && w != zero && mul(w, a) == mul(w, b)
      ensures a == b
    {
      InvCancel(w, a);
      InvCancel(w, b);
    }

    // The step of a product whose left side is a sum.
    lemma SumStep(A: E, B: E, a: E, b: E, x: E, t: E)
      requires Valid() && elem(A) && elem(B) && elem(a) && elem(b) && elem(x) && elem(t)
      ensures add(add(A, mul(t, B)), mul(add(a, mul(t, b)), x)) == add(add(A, mul(a, x)), mul(t, add(B, mul(b, x))))
    {
      ScaleSum(t, a, b, x);
      Closed(a, x);
      Closed(b, x);
      Closed(t, B);
      Closed(t, mul(b, x));
      AddSwap(A, mul(t, B), mul(a, x), mul(t, mul(b, x)));
      assert MulLaws(t, B, mul(b, x));
    }

    lemma ScaleSum(t: E, a: E, b: E, x: E)
      requires Valid() && elem(t) && elem(a) && elem(b) && elem(x)
      ensures mul(add(a, mul(t, b)), x) == add(mul(a, x), mul(t, mul(b, x)))
    {
      Closed(t, b);
      Closed(a, mul(t, b));
      assert MulLaws(x, a, mul(t, b)) && MulLaws(add(a, mul(t, b)), x, x) && MulLaws(a, x, x);
      assert MulLaws(t, b, x) && MulLaws(mul(t, b), x, x);
    }
  }

  /** GF(2): xor and and on bits. */
  const F2: Field<bool> := Field(x => true, false, true, (a, b) => a != b, (a, b) => a && b, a => a)

  lemma F2Valid()
    ensures F2.Valid()
  {
  }
}
